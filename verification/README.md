# Raampjes: memory, heap, processes and terminal

Raampjes is a small x86 kernel with a C library. This project models the parts of it that
carry state and proves what they promise:

- **Virtual memory** (`kernel/mm.c`, `kernel/phys_mm.c`): two-level page tables edited through
  a recursive self-map, lazy fork that shares whole page tables, a fault handler that splits
  first the table and then the page, and one reference count per physical frame.
- **The heap** (`libc/lib/stdlib/malloc.c`, `free.c`): a circular, address-sorted free list with
  a roving pointer, tail splitting, coalescing on both sides and growth by `sbrk`.
- **Processes** (`kernel/sched.c`): fork, exit, wait, pause and wakeups over a 64-slot table with
  round-robin choice.
- **The terminal** (`kernel/tty.c`, `libc/lib/stdio/_fillbuf.c`, `getc`): ring buffers, line editing
  and the stdio buffer on top of them.
- **Tar lookup, printing and parsing** (`kernel/ramdisk.c`, `kernel/itoa.c`, `libc/lib/stdlib/atoi.c`).

## How the model is built

Code that changes state is modelled twice. A class edits its fields, arrays and maps the way the
source does (`Kernel`, `Bitmap`, `Allocator`, `Scheduler`, `TtyBuffer`, `Terminal`, `File`), and the contract
of every method says which function of the old state the new state is. The properties are then
proved about those functions, one step at a time, and for runs by induction.

| files | contents |
|---|---|
| `PageWords`, `Mm`, `MmKernel`, `PhysMm` | words and their fields; the functions of `mm.c`; the class that edits memory; the counts |
| `MmInvariant`, `MmSplit`, `MmFork`, `MmRelease`, `MmMap`, `MmSteps` | the invariant of copy-on-write and what each operation does to it |
| `MmAddress`, `MmGrant` | addresses and the self-map; which writes are granted |
| `MmRuns`, `MmCounts`, `MmBoot`, `MmLimits` | whole runs; counts over runs; runs from boot; the limits of what the code promises |
| `HeapModel`, `HeapSteps`, `Allocator` | block sequences; the changes malloc and free make to them; the list itself |
| `Sched`, `SchedKernel` | the transition system; the class that scans and updates the table |
| `Tty`, `Stdio` | ring buffers, line editing, the console as one stream |
| `Text`, `Tar` | itoa and atoi; the archive walk |
| `Wrappers`, `Counting` | a result type; sizes of finite sets |

The virtual memory state is physical memory by frame, the counts, the frames of the live page
directories and the running one. A *place* (`Owner`) is directory entry k of a space, or page i of
the table that this entry holds; a place refers to a frame when its word is present. The invariant
`MmInvariant.Inv` labels each frame with one role, says that a place that can be written through is the
only one that refers to its frame, and that no count is below the number of references. A *surplus* is
what a count has above them. `MmRuns.Eager` is the machine in which every page of every process is its own,
with the permissions it was mapped with; it refuses an access without permission. `MmRuns.Sim` relates the two.

## Where the code falls short

Each of these is proved, with the exact condition under which the promise holds.

- `page_frame` ignores the present bit, so fork also counts absent entries that still name a frame
  (`kernel/mm.c:229-234`). Over any run a count exceeds the references by the number of such entries that
  forks met, less 256 for each time its byte wrapped (`MmCounts.CountsExactIff`); `MmBoot.StaleEntryOvercounts`
  is a run from boot after which the count of a data page is too high.
- Counts are bytes. As long as none wraps they never fall below the references, and no frame in use is handed
  out (`MmRuns.AllocNeverReferenced`, `MmFork.NoWrapCovers`). Nothing gives the surplus of a stale entry
  back, so repeated forks may reach the limit; `MmFork.ForkCoversIff` says for each frame when a fork leaves its count too low,
  and `MmFork.WrappedFrameHandedOut` when a frame in use is then handed out.
- Fork marks read-only pages like all others, and the fault handler takes the mark for permission: a write that
  panicked before a fork is granted after it (`MmGrant.ForkOpensReadOnly`, `MmRuns.ReadOnlyRefusedIff`).
- `map_page` copies a shared table without marking its pages. Isolation survives if and only if the
  table held no writable page that another process maps too (`MmMap.MapIsolatesIff`); otherwise the
  other process sees the next write (`MmLimits.SharedMapBreaksIsolation`).
- `get_free_address` installs page tables without user access, and returns their first page. A heap fault where
  there is no page table therefore maps the wrong page, unless it is the first, and the access ends in a panic in any case
  (`MmMap.PfNonPresentRepairs`, `MmMap.FaultWithoutTablePanics`).
- `free_page` drops the count before it clears the entry, so the copy of a shared table in between may
  be given that very frame (`MmLimits.ReleasedFrameReused`). This is harmless: the entry is cleared next.
- `FULL` compares without the modulus: a ring with head 0 that is full wraps onto itself and loses
  everything (`Tty.TtyBuffer.Enqueue`). Line editing works if and only if there is room (`Tty.Terminal.TtyInput`).
- `_fillbuf` returns a signed char, `getc` an unsigned one: a character comes back as itself if and only
  if it is below 128 or came from the buffer, and 255 looks like EOF (`Stdio.CharOrSignExtended`).
- `alloc_free` multiplies in 32 bits: a request of half a gigabyte is granted although the break does not
  move (`Allocator.GrowthIsReal`, `Allocator.OverrunExample`).
- `set_bitmap_area` lets index BITMAP_SIZE through its test (`PhysMm.StaysInsideIff`).
- `itoa` cannot print INT_MIN in base 10 (`Text.NegatesIff`, `Text.MinimumLeavesTable`).
- `find_file` finds the zero block for the empty name (`Tar.FindFile`).
- The comment on `alloc_page_frame` (`kernel/phys_mm.c:56-58`) announces the result -1 when memory is
  exhausted; the code panics. The model follows the code.

## Model

| member | source | states |
|---|---|---|
| PageWords.EncodeDecode | kernel/mm.c:229-234 | every 32-bit entry is determined by the fields the kernel reads and writes, so memory as records loses nothing |
| PageWords.DecodeEncode | kernel/mm.c:115-127 | an entry built from fields fits in 32 bits and has just those fields: frame in bits 12-31, present, writable, user, marks in bits 9 and 10 |
| PageWords.EncodeWeights | kernel/mm.c:139-148 | an entry is present + 2 writable + 4 user + 0x200 and 0x400 for the two marks + 0x1000 times the frame, and the unused bits |
| MmRuns.RunRefines | kernel/mm.c:132-163 | every run of forks, user writes and reads with their faults, releases, new mappings, faults on absent pages, reaping and switches is, step by step, a run of the machine in which fork copies every page with its permissions, either to its end or up to an access that the page's mapping did not permit; at that point each process still has exactly the same pages |
| MmRuns.StepRefines | kernel/mm.c:132-163 | one step of the kernel is one step of the eager machine, contents and permissions of every page included, unless it is such an access; a fault outside the heap is none |
| MmRuns.StepInv | kernel/mm.c:132-163 | every step, lawful or not, keeps the invariant, writes no frame that is reserved for the kernel, and changes the count of every frame by exactly the references that come and go, except for what fork adds for stale entries and loses where a byte wraps |
| MmRuns.ReadsAgree | kernel/mm.c:132-154 | what the running process may read in the eager machine it can read, and it reads the same; a page not mapped for the user stays closed |
| MmRuns.WritableIsGranted | kernel/mm.c:278-303 | a write behind the code segment to a page that was mapped writable for the user never meets the read-only panic: it is granted if and only if it needs no copy or memory suffices, which four free frames and a free kernel page do |
| MmRuns.ReadOnlyRefusedIff | kernel/mm.c:282-286 | a write behind the code segment to a page mapped read-only, or not for the user, is refused (with memory at hand) if and only if its table is unshared and the page is not marked in a table open to the user |
| MmRuns.RunGrants | kernel/mm.c:278-303 | after every run both machines go on together over a write to a page that was mapped writable, when four frames and a kernel page are free |
| MmRuns.AllocNeverReferenced | kernel/phys_mm.c:60-68 | in every state reached by forks after which the counts cover the references (ForkCoversIff), the frame handed out next is no directory, no kernel table, not frame 0, and nothing that any process maps or uses as a page table |
| MmCounts.RunSurplus | kernel/phys_mm.c:73-90 | over every run and for every frame, in use or not, the count changes by exactly the references from user places, new directories and kernel page tables that come and the ones that go, one more for each stale entry that a fork counted, and 256 less for each time the byte wrapped; no frame reserved for the kernel is ever written |
| MmCounts.CountsExactIff | kernel/phys_mm.c:81-90 | after every run from exact counts, the count of a frame in use is the number of places that refer to it plus its drift (stale entries counted less 256 times the wraps), which is never negative, so it is exact if and only if the drift is zero |
| MmCounts.ExactBound | kernel/phys_mm.c:118-128 | with exact counts no count exceeds the number of address spaces, and a process refers to a frame at most once |
| MmCounts.ExactNoWrap | kernel/phys_mm.c:118-128 | with exact counts, nothing stale and at most 254 address spaces, fork wraps no count around its byte |
| MmCounts.TidyRunExact | kernel/mm.c:132-154 | when forks find nothing stale and at most 254 spaces, tidy runs are runs, no count wraps, and every count has changed by exactly the references that came and went |
| MmRuns.SwitchInv | kernel/sched.c:72-76 | changing the running space keeps the invariant and every surplus |
| MmFork.ForkInv | kernel/mm.c:132-154 | the child has page for page what its parent has, with the same permissions, and in its kernel half the same page tables and itself as the self-map; the kernel window gains the one page that maps the new directory and loses none; nobody else changes, each surplus grows by the stale entries scanned less 256 for each wrap, and only the new directory and a new kernel page table gain a reference of their own; the invariant is kept if no surplus becomes negative |
| MmFork.ForkCoversIff | kernel/phys_mm.c:118-122 | for every frame, the count after a fork covers its references, with the one of a directory, kernel page table or reserved frame, if and only if its surplus and the stale entries added to it make up for 256 times the wraps of its byte |
| MmFork.NoWrapCovers | kernel/phys_mm.c:118-122 | which is certain when no count reaches 256 |
| MmFork.WrappedFrameHandedOut | kernel/phys_mm.c:60-68 | after a fork the next allocation hands out a frame in use, mapped, page table, directory or table of the kernel alike, if and only if its count with the entries that fork scans is a multiple of 256 and no lower count comes to 0, all in terms of the state before the counting |
| MmFork.ForkKeepsTarget | kernel/mm.c:137-151 | while every process goes on mapping what it mapped |
| MmFork.ForkOwners | kernel/mm.c:137-151 | after the copy of the directory each frame has as many new places as the parent had for it |
| MmFork.HoldingSplit | kernel/phys_mm.c:81-90 | what inc_phys_refs counts is the references of the running process plus its absent entries that name the frame |
| MmFork.ForkExactIff | kernel/mm.c:229-234 | a fork keeps the count of a frame in use exact if and only if its stale entries are 256 times the wraps: without a wrap, if and only if no absent entry names the frame |
| MmSplit.CopyTableInv | kernel/mm.c:321-331 | copy_page_table moves one reference from the old table to the new one, keeps what every space reads and every kernel page, frees the temporary page, and leaves only the pages of the new table without their marks |
| MmSplit.CopyTableExact | kernel/mm.c:321-331 | the short form of copy_page_table used in the model equals the source's sequence of enter_page, alloc_page_frame, map_page, memcpy and free_page |
| MmInvariant.EnterKernelPageExact | kernel/mm.c:93-96 | inside the kernel window enter_page comes down to the search and one store, since kernel tables are never shared |
| MmSplit.ReplaceTableInv | kernel/mm.c:327-329 | pointing a directory entry at a private copy of its table changes no page any space reads |
| MmSplit.EnableCoWInv | kernel/mm.c:250-256 | marking a private table takes back write access to all its present pages, restores the isolation rule for them, and changes no contents and no count |
| MmSplit.SplitTableInv | kernel/mm.c:288-294 | the table half of the fault handler leaves a private writable table whose present pages are all marked, with views and counts unchanged |
| MmSplit.SplitPageInv | kernel/mm.c:296-302 | the page half moves one reference to a fresh frame with the same contents, makes the page writable for the running process alone, frees the temporary page, and gives a reference of its own to nothing but a new kernel page table |
| MmSplit.PfRoViolationInv | kernel/mm.c:278-303 | pf_ro_violation changes what no process reads, changes every count by exactly the references that move and a new kernel page table, leaves the faulting page private, writable and unmarked, opens its table to the user only by copying it, and changes no other permission; kernel pages, reserved frames and the directories of other spaces stay as they are |
| MmSplit.DropTempInv | kernel/mm.c:82-88 | free_page of a temporary kernel page clears it, gives back one reference of the frame and touches no user memory |
| MmInvariant.AllocInv | kernel/phys_mm.c:60-68 | a frame handed out had count 0 and no reference, and the invariant survives with one surplus on that frame |
| MmInvariant.AddKernelTableInv | kernel/mm.c:182-191 | installing a kernel page table zeroes a frame that nothing refers to, closes it to the user, and leaves user memory, the other kernel pages and every surplus alone |
| MmInvariant.SearchFound | kernel/mm.c:205-227 | get_free_address returns a page that is not present, and changes the state only when it installs a table, whose first page it returns |
| MmInvariant.EnterInv | kernel/mm.c:93-96 | mapping a frame in the kernel window keeps the invariant, user memory, and role and count of all frames in use |
| MmRelease.FreePageInv | kernel/mm.c:82-109 | free_page of a user page removes that page from the running space and nothing else, even when it has to copy a shared table first and that copy takes the frame just released; surpluses stay, and only new kernel page tables gain a reference of their own |
| MmRelease.FreeUserPagesInv | kernel/mm.c:156-159 | the first loop of free_mem_usr removes exactly the pages from its start on, whatever tables it replaces on the way |
| MmRelease.FreeUserTablesInv | kernel/mm.c:160-162 | the second loop never fails, removes every user table of the running space and changes no other space |
| MmRelease.FreeMemUsrInv | kernel/mm.c:156-163 | free_mem_usr leaves no user page and no user table, changes nothing in the other spaces, and changes every count by exactly the references that go and the kernel page tables that come; kernel pages, reserved frames and the directories of other spaces stay as they are |
| MmRelease.ReleaseLeavesStale | kernel/mm.c:156-163 | with nothing shared free_mem_usr cannot fail, and every directory entry stays but for its present bit |
| MmRelease.ReleaseDropsExactly | kernel/mm.c:82-109 | for every frame, the count after free_mem_usr is the count before less the references that the running space had to it, down to 0 when nobody else uses it; only a frame that the copying of shared tables made a kernel page table has one more |
| MmMap.MapFreshAny | kernel/mm.c:63-76 | allocating a frame and mapping it at an absent page adds exactly that page to the running space and conserves every surplus, shared table or not |
| MmMap.MapIsolatesIff | kernel/mm.c:115-127 | mapping keeps every writable page private if and only if the table is unshared or holds no writable page that another space maps too |
| MmMap.MapFreshInv | kernel/mm.c:63-76 | in a safe table the whole invariant is kept |
| MmMap.MapPageAny | kernel/mm.c:115-127 | map_page of an unused frame at an absent page makes that page appear, changes no other page of any space, and turns one surplus into one reference |
| MmMap.PfNonPresentInv | kernel/mm.c:263-272 | a fault that is granted adds one fresh page, the faulting one or the first of a new table, and changes no other page |
| MmMap.PfNonPresentMaps | kernel/mm.c:205-227 | one call maps the faulting page if and only if its page table was there or it is the first page of its table |
| MmMap.PfNonPresentRepairs | kernel/mm.c:213-216 | the process can use the page after the call, and write it, if and only if its page table was there and was open to the user or shared, for get_free_address installs tables without user access |
| MmMap.FaultWithoutTablePanics | kernel/mm.c:278-286 | a heap access where there is no page table ends in the read-only panic, at once on the first page of the table and after a second fault elsewhere |
| MmSteps.UserWriteInv | kernel/mm.c:278-303 | a user write that is granted, with the fault it may cause, changes one word of one page for the writer and nothing for anybody else, and no other permission |
| MmSteps.UserReadInv | kernel/mm.c:305-314 | a read that the entries do not allow goes to the same handler; it changes what no process reads and conserves every surplus |
| MmSteps.FaultsOnce | kernel/mm.c:285-294 | the handler leaves no mark on the page it dealt with, so a second violation there panics |
| MmGrant.WriteGrantedIff | kernel/mm.c:278-303 | the write of a present page is granted if and only if both levels allow it to the user, or it lies behind the code segment, the table is shared or the page marked in a table open to the user, and neither split runs out of memory; map_page and free_page never fail there, and the retry succeeds |
| MmGrant.ReadGrantedIff | kernel/mm.c:305-314 | a read of a present page is granted if and only if both levels allow it to the user, or the conditions for copying on a write hold |
| MmGrant.FourFramesDo | kernel/mm.c:288-302 | four free frames and one free kernel page are enough for both splits |
| MmGrant.FaultGrantedIff | kernel/mm.c:263-272 | a fault on an absent page is granted if and only if its address lies behind the code and not above the break, and memory suffices: a frame for the page, and one more for a new table or what the copy of a shared one takes |
| MmGrant.MapGrantedIff | kernel/mm.c:115-127 | a fresh page is mapped if and only if memory suffices in that sense |
| MmGrant.ThreeFramesDo | kernel/mm.c:115-127 | for which three free frames and a free kernel page are enough |
| MmGrant.ForkGranted | kernel/mm.c:132-135 | fork_mem cannot fail with two free frames and a free kernel page |
| MmGrant.ReapGrantedIff | kernel/sched.c:206-211 | the directory page that is released is any but that of the running process, for which the model has no step |
| MmGrant.EnterKernelPageIff | kernel/mm.c:93-96 | with a frame to spare, a kernel page is found if and only if the kernel window has one left, at the cost of at most that frame |
| MmGrant.ReleaseGranted | kernel/mm.c:156-163 | with two free frames for each shared table and a free kernel page free_mem_usr cannot fail |
| MmGrant.AddressParts | kernel/mm.c:193-203 | an address in user memory has its table in bits 22 to 31, its page in bits 12 to 21 and its byte below |
| MmGrant.ForkOpensReadOnly | kernel/mm.c:139-147 | a write to a page mapped read-only panics before a fork and is granted after it, if it lies behind the code segment and memory suffices |
| MmSteps.StoreInv | kernel/mm.c:278-303 | a store to a page writable at both levels reaches no other place |
| MmSteps.ReapInv | kernel/sched.c:206-211 | releasing the directory page of an exited process keeps the invariant, every other space's view and all other kernel pages, and removes the kernel page that mapped it |
| MmLimits.SharedMapBreaksIsolation | kernel/mm.c:120-121 | where MapIsolatesIff denies isolation, the next write of the running process shows up in the other one |
| MmLimits.ReleasedFrameReused | kernel/mm.c:85-86 | the allocation after free_page's decrement returns the released frame if and only if that was its last reference and no lower frame is free |
| MmBoot.BootedInv | kernel/mm.c:33-48 | the state after init_mm, with a directory that maps itself and no user table, satisfies the invariant, with exact counts if none is above one |
| MmBoot.FromBoot | kernel/mm.c:33-48 | every run from boot refines the eager machine as RunRefines says; the count of every frame is what it was, with its references from user places, those of new directories and kernel page tables, and its drift; and no frame in use at boot is ever written, but for the page directory and the kernel page tables |
| MmBoot.BootStateIsFresh | kernel/bootstrap.asm:36-54 | the tables that the boot code builds, with the counts that init_phys_mm computes from any memory map in which the six frames above 4 MiB are usable, are such a state |
| MmBoot.MapNew | kernel/mm.c:115-127 | with frames used from the bottom up, mapping a page without a table takes the next frame for the page and the one after it for the table |
| MmBoot.StaleEntryOvercounts | kernel/phys_mm.c:81-90 | a run from boot, two pages, exec's release, three pages and a fork, ends with a data frame that the process maps and whose count exceeds its references |
| MmAddress.SelfMapCorrect | kernel/mm.c:168-175 | given the self-map, the hardware walk of the pointer that get_page_entry computes ends on the page-table entry of the address, and faults exactly where get_page_entry returns NULL |
| MmAddress.IndexParts | kernel/mm.c:193-203 | an address is the sum of its directory index, page table index and offset with their weights |
| MmAddress.TablePage | kernel/mm.c:236-238 | the page at get_page_table(a) has the directory entry of a as its page-table entry |
| MmAddress.TableLoopBounds | kernel/mm.c:160-162 | the second loop of free_mem_usr visits the windows of tables 0 to 767 and no other page |
| MmAddress.SearchLowest | kernel/mm.c:205-227 | unless it wrapped around, the search skipped no free page |
| MmAddress.SearchFinds | kernel/mm.c:210-224 | with a free page ahead and a frame to spare, the search succeeds at or before that page |
| MmAddress.GetFreeAddressLowest | kernel/mm.c:205-227 | for a 4 MiB aligned target the result is the lowest free page at or above it, whenever one exists below the self-map window |
| MmAddress.GetFreeAddressPreserves | kernel/mm.c:93-96 | the page found is none that is present, and every present mapping stays as it was even when a table is installed |
| PhysMm.Bitmap.SetArea | kernel/phys_mm.c:109-116 | sets exactly the cells of the area and no other |
| PhysMm.StaysInsideIff | kernel/phys_mm.c:112-114 | the test lets only existing cells through if and only if the area does not include index BITMAP_SIZE |
| PhysMm.Bitmap.Init | kernel/phys_mm.c:23-54 | afterwards a frame is free if and only if it is above 4 MiB, in a usable range and in no range of another type |
| PhysMm.FreeIff | kernel/phys_mm.c:31-53 | a frame is free at boot if and only if it is not below 4 MiB, its end lies in some range of the memory map, and every range in which it lies is available (kind 1) or reclaimable (kind 3) |
| PhysMm.OrderIrrelevant | kernel/phys_mm.c:31-50 | the result does not depend on the order of the memory map |
| PhysMm.Bitmap.Search | kernel/phys_mm.c:93-99 | the first cell from start on that holds the value, or -1 when there is none |
| MmKernel.Kernel.AllocPageFrame | kernel/phys_mm.c:60-68 | takes the lowest free frame with count 1, or fails when none is free, as the model function does |
| MmKernel.Kernel.FreePageFrame | kernel/phys_mm.c:73-76 | lowers a positive count by one and leaves a zero count |
| MmKernel.Kernel.AddPageTable | kernel/mm.c:182-191 | allocation, directory entry and the zeroing loop together are the model's add_page_table |
| MmKernel.Kernel.FirstAbsent | kernel/mm.c:218-221 | the scan of one page table finds its first absent entry |
| MmKernel.Kernel.GetFreeAddress | kernel/mm.c:205-227 | the loop over directory entries, modulo 1024, is the recursive search that the lemmas speak about |
| MmKernel.Kernel.EnterKernelPage | kernel/mm.c:93-96 | search and store in place are the model's enter_page |
| MmKernel.Kernel.CopyPageTable | kernel/mm.c:321-331 | the stores in place are the model's copy_page_table, panics included |
| MmKernel.Kernel.MapPage | kernel/mm.c:115-127 | the branches in place are the model's map_page |
| MmKernel.Kernel.FreeAddress | kernel/mm.c:101-109 | the branches in place are the model's free_address |
| MmKernel.Kernel.FreePage | kernel/mm.c:82-88 | count, then entry, as in the model's free_page |
| MmKernel.Kernel.EnableCoW | kernel/mm.c:250-256 | the loop makes all 1024 entries read-only and marked and changes no other page |
| MmKernel.Kernel.PfRoViolation | kernel/mm.c:278-303 | the fault handler in place is the model's, panics included |
| MmKernel.Kernel.PfNonPresent | kernel/mm.c:263-272 | the fault handler in place is the model's, panics included |
| MmKernel.Kernel.FreeMemUsr | kernel/mm.c:156-163 | both loops together are the model's free_mem_usr |
| MmKernel.Kernel.IncPhysRefs | kernel/phys_mm.c:81-90 | each count but that of frame 0 grows, modulo 256, by the number of scanned pages whose entry holds the frame |
| MmKernel.Kernel.CopyDirectory | kernel/mm.c:137-148 | after the copy and the marking loop both directories have all user entries read-only and marked, and the new one maps itself |
| MmKernel.Kernel.CountCopies | kernel/mm.c:150-151 | the two scans count each user place of the running process, page or table, exactly once |
| MmKernel.Kernel.ScannedIsHolding | kernel/mm.c:150-151 | the page numbers of the two scans and the user places of the running process are as many |
| MmKernel.Kernel.ForkMem | kernel/mm.c:132-154 | fork_mem in place is the model's fork_mem, panics included |
| HeapModel.Disjoint | libc/lib/stdlib/malloc.c:9-15 | no unit belongs to two blocks, free or live |
| HeapModel.Covering | libc/lib/stdlib/malloc.c:60-72 | the blocks together cover exactly the memory obtained from sbrk |
| HeapModel.FreeListUnique | libc/lib/stdlib/free.c:16-37 | the live blocks determine the free list, block for block: two heaps with the same live blocks have the same list |
| HeapModel.AllFreed | libc/lib/stdlib/free.c:25-34 | with nothing live the list is base and one block that spans the heap |
| HeapSteps.TakeOk | libc/lib/stdlib/malloc.c:37-39 | unlinking a block makes exactly that block live and keeps the heap in order |
| HeapSteps.SplitOk | libc/lib/stdlib/malloc.c:53-58 | splitting makes exactly the tail live, with the size asked for, and keeps the heap in order |
| HeapSteps.GrowOk | libc/lib/stdlib/malloc.c:66-69 | memory from sbrk extends the tiling by one live block |
| HeapSteps.Neighbours | libc/lib/stdlib/free.c:25-34 | the two address tests of free hold if and only if the block behind, or before, is free |
| HeapSteps.JoinOrdered | libc/lib/stdlib/free.c:26-27 | joining two touching free blocks keeps the tiling, the order and the live blocks |
| HeapSteps.FreeOk | libc/lib/stdlib/free.c:25-34 | free removes the block from the live ones, moves and resizes no other, and leaves no two free blocks touching |
| HeapSteps.FreedInOrder | libc/lib/stdlib/free.c:16-37 | after any sequence of calls of free the live blocks are the others, and the heap is in order |
| HeapSteps.FreedInAnyOrder | libc/lib/stdlib/free.c:16-37 | freeing all live blocks in any order leaves base and one block that spans the whole heap |
| Allocator.Allocator.Free | libc/lib/stdlib/free.c:16-37 | the circular search ends at the one right place, the list stays sorted, circular, coalesced and tiled with exactly b no longer live, and free_p is the last node below b |
| Allocator.Allocator.Insert | libc/lib/stdlib/free.c:25-36 | linking the block in behind p and joining its neighbours yields the heap without that live block, and the list has a block of at least its size |
| Allocator.Allocator.Relink | libc/lib/stdlib/free.c:25-34 | the header writes, in the source's order, for all outcomes of the two tests |
| Allocator.Allocator.BelowStack | kernel/sched.c:161-169 | no block of the heap reaches the stack, at any time |
| Allocator.Allocator.Sbrk | kernel/sched.c:161-169 | the old break is returned if and only if the new one, modulo 2^32, lies strictly between code and stack, and then the break moves there; otherwise it stays |
| Allocator.Allocator.AllocFree | libc/lib/stdlib/malloc.c:60-72 | NULL if and only if the new break would not lie between code and stack, with nothing changed; otherwise the live blocks are the same, the heap has grown by the bytes asked for taken as units, 512 at least, the list has a block of that size, and free_p is the last node of the list before |
| Allocator.Allocator.SplitBlock | libc/lib/stdlib/malloc.c:53-58 | exactly the tail of n units becomes a live block, the list keeps its nodes |
| Allocator.Allocator.Unlink | libc/lib/stdlib/malloc.c:37-39 | the whole block becomes live and leaves the list |
| Allocator.Allocator.Carve | libc/lib/stdlib/malloc.c:36-49 | from a block that is big enough comes a live block of exactly n units, and free_p moves to its predecessor |
| Allocator.Allocator.Lap | libc/lib/stdlib/malloc.c:36-47 | a lap from behind free_p back to free_p terminates and finds a fitting block if and only if there is one, and then the first one behind free_p |
| Allocator.Allocator.Malloc | libc/lib/stdlib/malloc.c:23-51 | calls sbrk only when nothing fits and then once; NULL for a positive size exactly when sbrk was asked and refused, with the heap unchanged; otherwise the tail of the first fitting block behind free_p, a new live block of the least size whose payload holds the bytes, all other live blocks untouched, and free_p at its predecessor |
| Allocator.AllSeen | libc/lib/stdlib/malloc.c:45-46 | back at free_p every node of the list has been looked at |
| Allocator.BigEnough | libc/lib/stdlib/malloc.c:30-67 | the memory asked for is enough for the request, so the second lap succeeds |
| Allocator.GrowthIsReal | libc/lib/stdlib/malloc.c:66-68 | the 32-bit sum moves the break by what was asked if and only if it does not run past 4 GiB |
| Allocator.OverrunExample | libc/lib/stdlib/malloc.c:66-68 | for half a gigabyte the sum is the old break, so the request is granted and the break stays where it was |
| Sched.RunInv | kernel/sched.c:78-159 | in every reachable state slots hold their own pid, init, the idle task and the running task are not stopped, and no wakeup is lost: who waits for a child has none to reap, who waits for input finds none |
| Sched.StepInv | kernel/sched.c:78-159 | each step keeps that invariant, leaves stopped tasks as they are until they are reaped, and never frees slots 0 and 1 |
| Sched.WaitInv | kernel/sched.c:141-159 | do_wait, called or resumed, keeps the invariant: it sleeps only when there is no stopped child to reap |
| Sched.ReadInv | kernel/tty.c:62-80 | do_read, called or resumed, keeps the invariant: it sleeps only without input, and takes input only while nobody waits for it |
| Sched.StepInput | kernel/tty.c:62-80 | characters come with a line and go with a read alone, which takes as many as asked for or all there are |
| Sched.StepGrantedIff | kernel/sched.c:78-159 | with an idle task a step fails if and only if the table is full at a fork, or init or the idle task exits, or the call does not fit what the running task is doing |
| Sched.ExitInv | kernel/sched.c:124-139 | do_exit keeps the invariant: the one task that may be waiting for it is woken |
| Sched.ForkInv | kernel/sched.c:78-100 | do_fork keeps the invariant: the child takes an empty slot under that slot's pid |
| Sched.ForkChild | kernel/sched.c:87-92 | do_fork succeeds if and only if a slot is empty; the lowest one then holds the child, in the state of the caller and with the pid of that slot, its parent is the caller, it runs next, and no other slot changes |
| Sched.StepSlot | kernel/sched.c:78-159 | who may do what to a slot: only the child of a fork appears, only its parent reaps it and only when stopped, only it stops, with the status it gives, or goes to sleep, a new line wakes every sleeper and an exit the parent and nobody else, and pid and parent never change |
| Sched.WaitReaps | kernel/sched.c:141-159 | do_wait with a stopped child removes every stopped child of the caller and returns, without one it puts the caller to sleep; either way no stopped child is left and nothing else changes |
| Sched.RunKeepsTask | kernel/sched.c:78-159 | over any run in which its slot is taken a task keeps its parent, and once stopped it stays as it is |
| Sched.ChildReaped | kernel/sched.c:78-159 | over whole runs: a task forks, the child exits with a status after any events, and whenever the parent then waits, or is resumed in its wait, after any further events that leave the child in its slot, the child is its stopped child with that status, the slot is emptied and the parent returns to user code |
| Sched.LineInv | kernel/tty.c:30-35 | a new line keeps the invariant: it wakes all waiting tasks, so nobody waits beside input |
| Sched.ExitWakesParent | kernel/sched.c:124-159 | a parent that waits while its child exits is running afterwards, and when resumed it reaps the child and returns to user code |
| Sched.CloserOrChosen | kernel/sched.c:178-193 | each call of sched chooses a given running task or comes strictly closer to it |
| Sched.StepChoice | kernel/sched.c:72-76 | a step without fork either calls sched, and then the running task is what next_process finds in the new table, or keeps the running task |
| Sched.BoundedWaiting | kernel/sched.c:178-193 | the same over any sequence of task tables: the task is chosen within as many calls as its distance |
| Sched.RunBoundedWaiting | kernel/sched.c:72-76 | on every run without fork a task that stays running is chosen by the time sched has been called more often than its cyclic distance, so within MAX_TASKS calls |
| Sched.IdleOnlyWhenNothingRuns | kernel/sched.c:178-193 | the idle task is chosen while not running only if no task is running |
| Sched.FindEmptySound | kernel/sched.c:199-204 | 0 is returned if and only if the table is full, otherwise the lowest empty slot |
| SchedKernel.Scheduler.constructor | kernel/sched.c:171-176 | the boot state satisfies the invariant |
| SchedKernel.Scheduler.NextProcess | kernel/sched.c:178-193 | the scan finds the first running slot after the current one, or 1 |
| SchedKernel.Scheduler.Schedule | kernel/sched.c:72-76 | the running task becomes the one next_process found |
| SchedKernel.Scheduler.WakeUpAll | kernel/sched.c:116-122 | every waiting task runs and no other slot changes |
| SchedKernel.Scheduler.FindEmptyTask | kernel/sched.c:199-204 | the scan is the search FindEmptySound speaks about |
| SchedKernel.Scheduler.DoFork | kernel/sched.c:78-100 | the table after do_fork is that of the transition system, the panic included |
| SchedKernel.Scheduler.DoPause | kernel/sched.c:102-106 | the running task waits at its place and another one is chosen |
| SchedKernel.Scheduler.DoExit | kernel/sched.c:124-139 | the table after do_exit is that of the transition system, panics included |
| SchedKernel.Scheduler.ReapChildren | kernel/sched.c:145-153 | every stopped child is reaped and none is left, the highest of their pids is returned with its status, and 0 if and only if there is none |
| SchedKernel.Scheduler.DoWait | kernel/sched.c:141-159 | one pass of the loop is the step of the transition system; it returns the highest stopped child with its status, or goes to sleep |
| SchedKernel.Scheduler.DoRead | kernel/tty.c:62-80 | one pass of the loop is the step of the transition system |
| Tty.TtyBuffer.Enqueue | kernel/tty.c:91-98 | appends the character, or refuses and changes nothing when full; the one position that FULL misses empties the ring, and only that |
| Tty.TtyBuffer.Dequeue | kernel/tty.c:100-108 | takes the first character, or returns 0 when empty |
| Tty.TtyBuffer.Restore | kernel/tty.c:110-117 | takes back the last character, or returns 0 when empty |
| Tty.TtyBuffer.QueueLength | kernel/tty.c:126-128 | the number of characters queued |
| Tty.MoveQueue | kernel/tty.c:119-124 | the first queue is emptied; it ends up, in order, behind the second if and only if both fit into one ring |
| Tty.Terminal.TtyInput | kernel/tty.c:24-40 | for every key, input and line buffer change as line editing prescribes if and only if there is room; a backspace needs none; without room an ordinary character is dropped, or the line at the position that FULL misses, and input_buf is left alone |
| Tty.Terminal.Read | kernel/tty.c:62-80 | sleeps if and only if there is no input, and otherwise delivers its first characters, as many as asked for or there are, and leaves the rest |
| Tty.BackspaceUndoes | kernel/tty.c:26-29 | a character and a backspace cancel out, except that a submitted line stays submitted |
| Tty.PlainTyping | kernel/tty.c:24-40 | without backspaces nothing is lost, doubled or moved |
| Tty.BackspaceOnEmpty | kernel/tty.c:26-29 | a backspace on an empty line does nothing, so with these two the editing of any keys is determined |
| Tty.WholeLines | kernel/tty.c:30-35 | only whole lines are submitted, and the line being edited holds no newline |
| Tty.TypedMore | kernel/tty.c:24-40 | what has been submitted stays, as a prefix, whatever is typed later |
| Stdio.File.FillBuf | libc/lib/stdio/_fillbuf.c:7-17 | returns the next character, sign-extended, and keeps the others in order between stdio buffer and input; waits if and only if there is none; EOF without a change when malloc fails |
| Stdio.File.Getc | libc/include/stdio.h:30-31 | delivers the next character of buffer and input together, unsigned from the buffer and sign-extended from a refill; waits if and only if there is none |
| Stdio.CharOrSignExtended | libc/lib/stdio/_fillbuf.c:16 | the value is the character itself if and only if it was buffered or is below 128; 255 looks like EOF |
| Stdio.Console.Press | kernel/tty.c:24-40 | for every key: characters delivered, in the stdio buffer and in input_buf are together exactly the submitted lines after editing, if and only if the key finds room |
| Stdio.Console.GetChar | libc/include/stdio.h:30-34 | over any interleaving with typing, getchar delivers the next submitted character, unsigned from the buffer and sign-extended from a refill, none lost, doubled or reordered; it waits if and only if all are delivered; EOF with nothing taken when malloc fails |
| Text.CountDigits | kernel/itoa.c:18-22 | the counting loop advances by exactly the number of digits |
| Text.FillDigits | kernel/itoa.c:25-28 | the filling loop writes exactly the digits, ends on the first digit cell and touches no other cell |
| Text.Itoa | kernel/itoa.c:3-30 | the buffer holds sign, prefix and digits of n and a NUL, and nothing behind it changes |
| Text.NegatesIff | kernel/itoa.c:8-11 | the negation in 32 bits gives the magnitude if and only if n is not INT_MIN |
| Text.MinimumLeavesTable | kernel/itoa.c:25-28 | INT_MIN makes itoa read eight places before its table of digits in base 10 |
| Text.Atoi | libc/lib/stdlib/atoi.c:4-18 | the value, in 32 bits, of an optional minus sign and digits, and 0 for any other string |
| Text.DecimalValue | kernel/itoa.c:18-28 | the printed digits are digits and have the value of the number |
| Text.PrintedValue | kernel/itoa.c:3-30 | in every base from 2 to 16 what is printed denotes the number, read by an independent parser of sign, 0x and digits up to F, and has no superfluous zero |
| Text.PrintParse | libc/lib/stdlib/atoi.c:4-18 | atoi inverts itoa in base 10 for every int |
| Text.ParsedNumber | libc/lib/stdlib/atoi.c:4-18 | what atoi reads is the number that the independent parser finds, if there are decimal digits alone behind the optional sign, and otherwise 0 |
| Tar.GetSize | kernel/ramdisk.c:63-72 | for any eleven bytes, summing from the last one back in 32 bits gives their value in base 8 modulo 2^32; for the eleven octal digits that tar writes for n it is n, modulo 2^32 |
| Tar.OctalInverse | kernel/ramdisk.c:63-72 | the value of the field that tar writes for n, digit by digit from its own table, is n |
| Tar.OctalPrinted | kernel/ramdisk.c:63-72 | and every field of octal digits is the one that is written for its value |
| Tar.DigitBytes | kernel/ramdisk.c:69 | any other byte counts as a signed number less 48 |
| Tar.OctalFirst | kernel/ramdisk.c:68-69 | the weight of the first of n octal digits is 8^(n-1), which ties reading from the back to the value of the field |
| Tar.StepIsSpan | kernel/ramdisk.c:81 | for every size, and 0 by wrapping around, the step is one header and the data padded to blocks, modulo 2^32 |
| Tar.SpanLeast | kernel/ramdisk.c:81 | which is the least number of whole blocks that hold a header block and the data |
| Tar.Strncmp | libc/lib/string/strncmp.c:3-16 | the character loop returns 0 if and only if the name and the buffer agree up to the end of the name or of the first n characters, and otherwise the order at the first difference |
| Tar.NextAddress | kernel/ramdisk.c:78-85 | from one header the walk lands on the next |
| Tar.FindFile | kernel/ramdisk.c:74-89 | returns the first header with that name, or NULL at the zero block if and only if there is none; the empty name finds the zero block |

## Left out

- Mm.EnterKernelPage: a search that leaves the kernel window counts as a panic; the source would go on with a page of the self-map or of user space. That happens only when all 255 kernel tables are full (`MmGrant.EnterKernelPageIff`).
- MmKernel.Kernel.EnterKernelPage: likewise.
- MmKernel.Kernel.CopyPageTable: likewise.
- MmRuns.RunRefines: a fork is in the run only while the counts cover the references afterwards, and a page is mapped only where it is absent and its table is safe, because beyond that isolation is lost; stores by the kernel to user pages, which ignore read-only bits because boot leaves CR0.WP clear (`kernel/bootstrap.asm:59-61`), are not steps.
- MmRuns.AllocNeverReferenced: not for runs in which a wrapped byte has left a count too low; `MmFork.WrappedFrameHandedOut` describes that case.
- MmKernel.Kernel.ForkMem: the directory is a field of the kernel state, not a member of a task structure; the kernel page of the task structure and its release are not modelled.
- PhysMm.Bitmap.Init: page numbers are unbounded, where the source keeps them in an int; no range may include index BITMAP_SIZE, which the source would write out of bounds.
- Allocator.Allocator.Malloc: the loop is modelled as laps round the list, the second one after `alloc_free`; when the 32-bit request for more memory wrapped around, the outcome is Overrun and nothing is said of the heap afterwards.
- Allocator.Allocator.AllocFree: nothing is said of the heap after Overrun.
- Allocator.Allocator.Free: only for blocks that malloc returned and that are not free yet; programs are taken to leave block headers alone, and only malloc moves the break.
- Sched.RunInv: `do_wait` and `do_exit` follow a null pointer for an empty slot (`kernel/sched.c:134`, `kernel/sched.c:146`); in the model an empty slot matches nothing; system calls are atomic up to their calls of `sched`, since `syscall_handler` disables interrupts (`kernel/interrupts_handlers.asm:60-78`); panics end a run.
- SchedKernel.Scheduler.DoFork: the task table only; the task's page is left out and its address space is part of the memory model.
- SchedKernel.Scheduler.DoExit: the task table only; free_mem_usr is part of the memory model.
- SchedKernel.Scheduler.DoRead: counts the characters; which ones they are is part of Tty.
- MmSteps.ReapInv: free_task's second free_page, of the task structure's own page, is left out.
- PhysMm.Bitmap.SetArea: areas that include index BITMAP_SIZE, where the source writes out of bounds.
- Tty.Terminal.Read: one pass of the loop; that a sleeping reader is woken and runs again is part of Sched.
- Tty.Terminal.TtyInput: without the echo on the screen.
- Text.Itoa: not for INT_MIN, where the source reads outside its digit table.
- Tar.FindFile: for well-formed archives below 4 GiB that end in a zero block; the archive is a map from addresses to headers.
- `uitoa`: the same two loops as `itoa` on unsigned numbers.
- `load_elf`, `load_bin`, `alloc_pages` and the rest of `do_execve`: for the memory model exec is free_mem_usr followed by mapping fresh frames.
- `do_write`, in particular to descriptor 0, and reads from other descriptors.
- TLB invalidation: the walk sees the current tables.
- `switch_task`, the stack copy of fork, interrupt entry code, boot, drivers, the shell and the other string functions.
