# Verification of the kernel's memory manager and its clients

This project models the memory manager of the kernel under `sys/` and the parts of the kernel that
live on top of it, and proves what they do. One Dafny module stands for one source file or for one
layer of the argument; `dafny verify dfyconfig.toml` checks everything.

## What is modelled

**The machine.** Physical memory is an array of 512-word frames. The frame bitmap of `pmm.c` lies
inside that memory, several PML4 roots share it, CR3 names the current one, and a TLB runs alongside
that may cache any present entry of the current address space at any time (`Machines.dfy`). The
machine records which pages have been stored to and not flushed.

| file | part of the kernel | form |
|---|---|---|
| `Words.dfy`, `Paging.dfy` | C bit operators on 64-bit words; page-table entries, the four indexes of an address | functions |
| `Forest.dfy` | the page tables of all address spaces as one forest in physical memory: invariant, elementary steps, runs, the fork theorem | relations on worlds |
| `Flat.dfy`, `Calls.dfy` | the reference machine of one address space, a flat map from pages to entries plus a free set; refinement of single operations | functions, relations |
| `Spaces.dfy` | all address spaces together as a family of flat machines; refinement of runs that mix calls on any root with forks | functions, relations |
| `Flags.dfy` | what `vmm_update_flags` makes of an entry, bit by bit | lemmas |
| `Bitmap.dfy`, `Pmm.dfy`, `PmmInit.dfy` | `pmm.c` | methods on the machine |
| `Boot.dfy` | `kmain.c`: from the boot loader's tables to a valid machine | method |
| `Vmm.dfy`, `Tlb.dfy` | `vmm.c`; TLB coherence over runs of elementary events | methods; relations |
| `FlatMmap.dfy`, `Mmap.dfy` | `mmap.c`, first on the reference machine, then on the real one | functions; methods |
| `Elf.dfy` | `elf.c`: mapping and copying segments through the page tables | methods |
| `ElfFile.dfy` | the file headers of `elf.h` byte by byte, and `elf_load` in terms of their fields | functions, method |
| `Heap.dfy` | `heap.c`: block headers in raw memory | class |
| `Proc.dfy` | `proc.c`, `trap.asm`, `irq.asm`: queue, round robin, trap frames | classes |
| `Launch.dfy` | the address space `make_process` builds, and what it does to earlier processes | methods, relations |
| `Initrd.dfy`, `Strings.dfy` | `initrd.c`; number printing, parsing and comparison of `string.c` | methods |
| `Tar.dfy` | the archive that `initrd.c` walks, byte by byte from the files in it | functions, method |

**How the argument runs.** A method on the machine is proved to perform one of the relational steps
of `Forest.dfy` or a composition of them (`LevelStep`, `WalkDoes`, `StoreDoes`, `MmapDoes`). Lemmas
about those relations then give the forest invariant, exactness in every address space, and the
equation `FlatOf(after) == Operation(FlatOf(before))` with the reference machine. For runs over all
address spaces the reference machine is a family of flat machines that knows which PML4 slots two
roots have in common: a call on one root is the same call on every root that shares the page's
slot, and takes nothing but frames from the others. What `mmap` promises is proved once, on the
reference machine, and carried over. What the functions of the model stand for is stated once more
in the kernel's own numbers: entries bit by bit (`Calls.EntryBits`, `Mmap.EntryAsAsked`), sizes and
bits of the bitmap (`PmmInit.SizeIsLeast`, `PmmInit.UsableFrames`, `Bitmap.UsedIsBit`), header bytes
(`Heap.HeaderBytes`), and files laid out byte by byte (`ElfFile.EhdrRoundTrip`, `Tar.TarIsArchive`).

**Results worth knowing as a caller.**

- A table that cannot be allocated makes `vmm_map_page` return silently. `mmap` does not see it: it
  fails one iteration later, or returns 0 with its last page unmapped. It returns 0 if and only if
  there is a frame for every page but the last, for every table those need, and one more
  (`FlatMmap.MmapZeroWhen`); with fewer than everything needs, the last page is then missing
  (`FlatMmap.LastPageMissing`, with an instance in `FlatMmap.ZeroButUnmapped`).
- `mmap` maps everything if and only if there is a frame for each page and each missing table
  (`FlatMmap.MmapCost`), and `FlatMmap.NewTablesBound` bounds the missing tables.
- The index expressions ignore bits 63..48 of an address, while `invlpg` does nothing at an address
  that is not canonical. An operation at such an address rewrites a canonical page's entry and leaves
  it unflushed (`Tlb.FlushedWhenCanonical`, `Tlb.OutdatedEntry`); all coherence claims below name
  these pages.
- The bitmap has a bit for every frame if and only if the number of frames is not 1 to 7 above a
  multiple of 32768 (`PmmInit.SizeCovers`); in the remaining cases clearing bits also stores to the
  frame after the bitmap (`PmmInit.Touched`).
- `dec2str` prints a decimal numeral for every int except the least one
  (`Strings.PrintedIsDecimal`). Negating that one is undefined in C; the model assumes that it
  wraps, as the machine's instruction does, and then the text is `-`.
- `kfree` marks nothing free: its loop ends before its first turn. It leaves the heap valid if and
  only if what has the magic in front of the pointer is a block (`Heap.KernelHeap.Kfree`).
- `pmm_free_frame` and `munmap` keep the allocator's invariant if and only if the frame is the
  caller's (`Pmm.FreeFrame`, `Mmap.Munmap`). For a page that is not mapped the frame is 0, and 0
  becomes free (`Mmap.MunmapUnmapped`).
- Every launch takes the user stack of every earlier process that shares PML4 slot 0, and a process
  shares it unless the slot was absent from the recorded root when it was forked
  (`Launch.EarlierStack`). `launch_exec` loads the program through the old address space, so the new
  process has it exactly in the slots common to both when it was forked (`Launch.ImageReaches`).
- `initrd_open` of an empty path returns the address behind the closing block
  (`Initrd.Open`).
- `elf_load` maps `p_memsz + 4095` pages per segment, not that many bytes, at a price in frames
  (`Elf.Fits`, `Elf.EnoughFrames`). At the end every mapped address reads as the last header that
  mapped its page says (`Elf.ElfLoad`). Segments in ascending order are all intact
  (`Elf.AscendingIntact`); page-disjoint ones in any other order exactly if their over-mapped bytes
  are zero (`Elf.IntactWhenDisjoint`, with a failing file in `Elf.DescendingLost`). It places
  segments at `p_paddr`, where chapter 5 of the System V gABI says `p_vaddr`; the model follows the
  code.
- Blocks of the kernel heap are 24 times their size apart, so the budget does not keep them inside
  the mapped region (`Heap.ContainedWhen`).

## Model

| member | source | states |
|---|---|---|
| Words.AndField | sys/src/mm/vmm.c:57-60 | masking n bits at position s and shifting down is taking the n-bit field, for every word, position and width |
| Paging.PresentIsMask | sys/src/mm/vmm.c:33 | the PTE_PRESENT mask is non-zero exactly for entries with bit 0 set |
| Paging.AddrIsMask | sys/include/mm/vmm.h:12 | PTE_GET_ADDR is 4096 times the frame number in bits 51..12 |
| Paging.TableEntryIsOr | sys/src/mm/vmm.c:50 | or-ing a frame address with PRESENT and WRITABLE gives an entry that is present and points back at that frame |
| Paging.LeafEntry | sys/src/mm/vmm.c:77 | `phys OR flags` points at phys's frame and is present exactly when the flags say so, provided no flag lies in the address field |
| Paging.PageOfIsMasks | sys/src/mm/vmm.c:57-60 | the four mask-and-shift expressions are the four 9-bit digits of the page number |
| Paging.PageOfInjective | sys/src/mm/vmm.c:57-60 | two addresses have the same four indexes exactly when bits 47..12 agree |
| Paging.AlignKeepsPage | sys/src/mm/vmm.c:115 | PAGE_ALIGN clears the low 12 bits and keeps the page |
| Paging.CanonicalTop | sys/src/mm/vmm.c:16-18 | the canonical addresses are those whose bits 63..47 are all 0 or all 1 |
| Forest.TableForLabelled | sys/src/mm/vmm.c:62-72 | the page table a walk reaches under any root is a live table hanging at exactly the path of the page's indexes |
| Forest.SharedSlot | sys/src/mm/vmm.c:20-28 | two roots reach the same page table for a page exactly when their PML4 entries for it point at the same table |
| Forest.AllocKeeps | sys/src/mm/pmm.c:40-50 | taking and zeroing the lowest free frame keeps the forest invariant and every translation of every root |
| Forest.FreeKeeps | sys/src/mm/pmm.c:63-65 | giving back a data frame keeps the invariant and every translation |
| Forest.DataKeeps | sys/src/lib/elf.c:107-109 | any store into a frame that is no table and no bitmap keeps the invariant and every translation |
| Forest.LinkKeeps | sys/src/mm/vmm.c:41-51 | entering a new zeroed table in an absent entry keeps the invariant and changes the translation of no page in any address space |
| Forest.WriteIsExact | sys/src/mm/vmm.c:77 | a level-1 store made through one root changes exactly one page, in exactly the address spaces that share its PML4 slot |
| Forest.ForkKeeps | sys/src/mm/vmm.c:20-28 | a copied root translates every page like its original, and nothing else changes |
| Forest.StepKeeps | sys/src/mm/vmm.c:31-52 | every elementary step keeps the forest invariant; tables stay at their path and present intermediate entries keep their target |
| Forest.RunKeeps | sys/src/mm/vmm.c:31-52 | the same over every run |
| Forest.NewFrameIsNoTable | sys/src/mm/pmm.c:40-50 | no frame zeroed by an allocation at any point of any run was a live table at any earlier point, nor holds the bitmap; earlier present links survive |
| Forest.BitmapStays | sys/src/mm/pmm.c:40-50 | in every run the bitmap stays in its frames and none of them is ever free |
| Forest.SharingIsFixed | sys/src/mm/vmm.c:20-52 | through any run two roots share a PML4 slot at the end exactly if they did at the start |
| Forest.ForkedSlotsAgree | sys/src/mm/vmm.c:20-28 | fork theorem, first half: pages of a slot present at copy time translate identically under both roots after any run |
| Forest.UnsharedUntouched | sys/src/mm/vmm.c:31-112 | at any point of any run, whatever roots it uses, a step made through one root changes no translation of a slot that another root does not share with it |
| Forest.UnsharedStretch | sys/src/mm/vmm.c:31-112 | so such a slot keeps its translations over any stretch of a run in which only the one root is stored through |
| Forest.ForkedSlotsIndependent | sys/src/mm/vmm.c:20-52 | fork theorem, second half: in any run that uses both roots, a step made through one changes no translation of a slot absent at copy time in the other |
| Forest.ForkedSlotsEmpty | sys/src/mm/vmm.c:20-52 | while only one of the two is stored through, such a slot stays empty in the other |
| Flat.LevelRefines | sys/src/mm/vmm.c:31-52 | one level of the walk, failure included, commutes with reading the root as a flat machine |
| Flat.WalkRefines | sys/src/mm/vmm.c:62-75 | a three-level walk is a walk of the flat machine: same success, same frames taken, and it ends at the page table responsible for the page |
| Flat.StoreRefines | sys/src/mm/vmm.c:55-79 | storing through the tree is `Map` on the flat machine, also when frames run out half way |
| Flat.StoreIsExact | sys/src/mm/vmm.c:55-79 | over all roots, exactly one page changes, in the spaces sharing its slot, and only if the walk succeeded |
| Flat.WalkWellFormed | sys/src/mm/vmm.c:62-75 | a walk changes no entry, and succeeds exactly if the page's table exists afterwards |
| Flat.UnmapLeavesZero | sys/src/mm/vmm.c:88-112 | unmap leaves 0 at its page and changes no other, even when its own walk runs out of frames |
| Flat.WalkCost | sys/src/mm/vmm.c:41-44 | a walk succeeds exactly when there is a frame for each missing table, takes exactly those, and when it fails has used up every frame |
| Calls.GetPhysRefines | sys/src/mm/vmm.c:114-139 | the result is the masked leaf and no entry changes, although the walk may create tables |
| Calls.EntryBits | sys/src/mm/vmm.c:77 | bit k of `phys OR flags` is set exactly if bit k of phys or of flags is, for every k |
| Calls.CallRefines | sys/src/mm/vmm.c:55-167 | each of map, unmap, get_phys, update_flags, frame allocation, frame release and data store commutes with reading the root as a flat machine |
| Spaces.SharedCall | sys/src/mm/vmm.c:55-167 | a call on one root is the same call, with the same result, on every root that shares the slot of its page |
| Spaces.ApartCall | sys/src/mm/vmm.c:55-167 | on a root that does not share it the call changes no entry and adds no table |
| Spaces.CallSameSharing | sys/src/mm/vmm.c:31-52 | no call changes which slots two roots have in common, or which roots there are |
| Spaces.OnRefines | sys/src/mm/vmm.c:55-167 | a call on any root commutes with reading all roots at once as a family of flat machines |
| Spaces.ForkRefines | sys/src/mm/vmm.c:20-28 | so does a fork: the copy starts with its original's entries and tables, shares its present slots and what it shared, and every root loses the one frame; without a frame no root changes |
| Spaces.RunRefines | sys/src/mm/vmm.c:20-167 | refinement over runs: after any sequence of map, unmap, get_phys, update_flags, allocation, release and store calls, each naming its root, mixed with forks, all address spaces are the family's, and every result is the family's |
| Bitmap.ClearAfterSet | sys/src/mm/pmm.c:30-32 | setting a bit removes exactly that frame from the free set |
| Bitmap.ClearAfterClear | sys/src/mm/pmm.c:25-27 | clearing a bit adds exactly that frame to the free set |
| Bitmap.ReadWritten | sys/src/mm/pmm.c:25-37 | a byte stored in frame memory reads back, and every other byte of the region reads as before |
| Bitmap.UsedIsBit | sys/src/mm/pmm.c:25-37 | the bit of frame f is bit f mod 64 of word f/64 of the bitmap, lowest bit first |
| Machines.Machine.LoadCr3 | sys/src/proc/proc.c:144 | after loading CR3 with a root, no page is unflushed and the TLB agrees with the new address space whatever is cached next |
| Machines.Machine.Invlpg | sys/src/mm/vmm.c:16-18 | at a canonical address the page is dropped and no longer unflushed, at any other nothing happens |
| Pmm.BitmapTest | sys/src/mm/pmm.c:35-37 | reads bit f as set exactly when f is not free |
| Pmm.BitmapSet | sys/src/mm/pmm.c:30-32 | memory afterwards is memory with that one bit set |
| Pmm.BitmapUnset | sys/src/mm/pmm.c:25-27 | memory afterwards is memory with that one bit cleared |
| Pmm.ZeroPage | sys/src/lib/string.c:115-122 | the byte loop leaves the frame all zero and every other frame alone |
| Pmm.TakeIsAllocStep | sys/src/mm/pmm.c:43-44 | setting the bit and then zeroing the frame is one allocation step: the zero fill disturbs no bitmap bit |
| Pmm.AllocFrame | sys/src/mm/pmm.c:40-50 | returns the lowest free frame, zeroed and marked used, or 0 exactly when none is free, and then changes nothing |
| Pmm.FreeFrame | sys/src/mm/pmm.c:63-65 | for any frame the bitmap has a bit for: it joins the free set and memory outside the bitmap stays; the invariant survives if and only if the frame was no table, not part of the bitmap, not frame 0 and inside memory |
| PmmInit.SizeCovers | sys/src/mm/pmm.c:82 | the bitmap covers N frames if and only if N mod 32768 is not in 1..7, and is otherwise short by exactly those, at most 7 |
| PmmInit.SizeIsLeast | sys/src/mm/pmm.c:82 | the size is the one multiple of 4096 from N/8 up to less than N/8 + 4096, so it has fewer than N + 32768 bits |
| PmmInit.UsableFrames | sys/src/mm/pmm.c:105-113 | a frame is usable exactly if all its 4096 bytes lie in an entry of kind 0 |
| PmmInit.SmallMapBits | sys/src/mm/pmm.c:68-114 | an instance: 127 MiB usable from 1 MiB on give one bitmap page, frame 0x100, and the clear bits 0x101 to 0x7FFF |
| PmmInit.FindHighest | sys/src/mm/pmm.c:71-80 | the result is an upper bound for the ends of usable entries, and the end of one of them unless there is none |
| PmmInit.PlaceBitmap | sys/src/mm/pmm.c:86-102 | the first usable entry that is long enough is carved, the bitmap lies at its start with every bit set, nothing else changes |
| PmmInit.CarveUsable | sys/src/mm/pmm.c:98-99 | after carving, a frame is usable exactly when it was and does not hold the bitmap |
| PmmInit.ClearEntry | sys/src/mm/pmm.c:110-112 | the inner loop clears exactly the bits of the entry's frames |
| PmmInit.ClearUsable | sys/src/mm/pmm.c:105-113 | the outer loop clears exactly the bits of usable frames |
| PmmInit.Init | sys/src/mm/pmm.c:68-114 | the bitmap lies in the first usable entry with room for it; afterwards bit f is clear if and only if f is usable and does not hold the bitmap, memory elsewhere and the boot tables are untouched, and the forest invariant holds with these tables, the bitmap and the free frames pairwise disjoint; the bitmap is the least multiple of a page with N/8 bytes, N frames lying below the highest end of a usable entry |
| PmmInit.BootTablesStay | sys/src/mm/pmm.c:84-113 | no boot table is stored to, provided none is usable memory or, when the bitmap is a few bits short, lies right after it |
| Boot.Start | sys/src/kmain.c:27-28 | boot theorem: from tables that form a forest outside usable memory, `pmm_init` and `vmm_init` reach the valid machine every later call asks for, every address translating as before |
| Vmm.GetNextLevel | sys/src/mm/vmm.c:31-52 | follows a present entry, or links a new zeroed table, or returns NULL exactly when no frame is free |
| Vmm.WalkTo | sys/src/mm/vmm.c:56-75 | the three calls in a row, stopping at the first NULL |
| Vmm.StoreFacts | sys/src/mm/vmm.c:77-78 | the store after a walk is exact: in the current address space no other page changes |
| Vmm.FlushPage | sys/src/mm/vmm.c:16-18 | coherence is kept however the processor fills the TLB before and after; the page no longer awaits a flush if the address is canonical, and still does if not |
| Vmm.MapPage | sys/src/mm/vmm.c:55-79 | `Map` on the flat machine, exact in every address space; on exhaustion no leaf changes; TLB coherent on return, and a page newly left unflushed only if virt is not canonical; when the page has a table, bit k of its entry is set exactly if bit k of phys or of flags is |
| Vmm.UnmapPage | sys/src/mm/vmm.c:88-112 | `Unmap` on the flat machine, exact in every address space; TLB coherent on return, and a page newly left unflushed only if virt is not canonical |
| Vmm.GetPhysAddr | sys/src/mm/vmm.c:114-139 | returns the old leaf masked with PTE_ADDR_MASK, changes no leaf of any root, only turns free frames into tables |
| Vmm.StoreCleared | sys/src/mm/vmm.c:164 | between the two stores of update_flags the only page newly stale is the one stored to |
| Flags.WithFlagsBits | sys/src/mm/vmm.c:164-165 | every bit of the new entry is the argument's, or the old entry's if it is none of PRESENT, WRITABLE, USER and NX |
| Flags.WithFlagsEntry | sys/src/mm/vmm.c:164-165 | the new entry keeps its frame if no flag lies in the address field, and is present exactly when the flags say so |
| Flags.UpdateFlagsKeepsPhys | sys/src/mm/vmm.c:142-167 | updating flags moves no page: get_phys returns the same address afterwards for every page |
| Vmm.SetPageFlags | sys/src/mm/vmm.c:142-167 | `UpdateFlags` on the flat machine, exact in every address space, every page keeps its frame; TLB coherent on return, and a page newly left unflushed only if virt is not canonical |
| Vmm.MakePml4 | sys/src/mm/vmm.c:20-28 | the new root is a copy of the recorded one in the lowest free frame; with no frame left the copy goes through the null pointer to frame 0, 0 is returned and no address space changes |
| Vmm.Init | sys/src/mm/vmm.c:170-172 | the recorded root is the one in CR3 |
| Tlb.EventKeeps | sys/src/mm/vmm.c:77-78 | every single store, invlpg, CR3 load, TLB fill and eviction, in any order, keeps coherence up to the pages awaiting their flush |
| Tlb.RunCoherent | sys/src/mm/vmm.c:164-166 | at every point of every run a cached entry not awaiting its flush is the current root's leaf (sections 4.5 and 4.10 of Intel SDM Vol. 3A) |
| Tlb.FlushedWhenCanonical | sys/src/mm/vmm.c:77-78 | the store and the invlpg after it leave the page awaiting a flush if and only if the address is not canonical |
| Tlb.OutdatedEntry | sys/src/mm/vmm.c:77-78 | then a cached entry for the page stays in the TLB although its table holds another |
| FlatMmap.TableFailureForcesEnomem | sys/src/mm/mmap.c:48-57 | a table that cannot be made on any page but the last turns the next iteration into -ENOMEM |
| FlatMmap.MmapElsewhere | sys/src/mm/mmap.c:44-59 | pages outside the range keep their entries, whatever the result |
| FlatMmap.AllMappedFresh | sys/src/mm/mmap.c:44-59 | if every iteration succeeded, each page's entry is a frame's address or-ed with the flags (`Calls.EntryBits` says what that is), the frames pairwise distinct and free on entry |
| FlatMmap.MmapZero | sys/src/mm/mmap.c:44-59 | a result of 0 means every iteration before the last succeeded, and the last did too or its own walk emptied the pool and mapped nothing |
| FlatMmap.MmapSuccess | sys/src/mm/mmap.c:44-59 | a result of 0 means pages 0..n-2 are mapped to distinct frames free on entry, the last page too unless the pool ran dry |
| FlatMmap.MmapZeroWhen | sys/src/mm/mmap.c:48-58 | the result is 0 if and only if the pages but the last, plus the tables they miss, are fewer than the free frames |
| FlatMmap.LastPageMissing | sys/src/mm/mmap.c:48-58 | the result is 0 without every page mapped if and only if, beyond that, the free frames are fewer than all pages plus all missing tables |
| FlatMmap.MissingPageStays | sys/src/mm/mmap.c:48-58 | then the last page keeps its old entry and no frame is left |
| FlatMmap.ZeroButUnmapped | sys/src/mm/mmap.c:48-58 | an instance: one free frame, no tables, one page |
| FlatMmap.MmapCost | sys/src/mm/mmap.c:48-57 | everything is mapped if and only if pages plus missing tables are at most the free frames, and then exactly that many are consumed and exactly the missing tables created |
| FlatMmap.NewTablesBound | sys/src/mm/vmm.c:62-72 | n consecutive pages miss at most (ceil(n/512)+1)+(ceil(n/512^2)+1)+(ceil(n/512^3)+1) tables, however they are aligned |
| FlatMmap.CeilDivIs | sys/src/mm/vmm.c:57-60 | the ceilings in that bound are the least multiples that cover n |
| FlatMmap.PagesDistinct | sys/src/mm/mmap.c:48-57 | up to 2^36 consecutive pages are pairwise different |
| Mmap.GetFlagsFromProt | sys/src/mm/mmap.c:7-23 | the flags are NX unless EXEC, WRITABLE, PRESENT and USER as asked, as a sum of distinct bits |
| Mmap.FlagsOfFlagsOnly | sys/src/mm/mmap.c:7-23 | whatever is asked for, no flag lies in the address field, and the entry is present exactly when PROT_READ is asked for |
| Mmap.FlagsByOr | sys/src/mm/mmap.c:10-20 | the four conditional or-assignments add up exactly the flags asked for |
| Mmap.EntryAsAsked | sys/src/mm/mmap.c:7-23 | the entry for frame f is 4096 f, plus 1 for PROT_READ, 2 for PROT_WRITE, 4 for PROT_USER, 2^63 without PROT_EXEC, and nothing else |
| Mmap.RightsAsAsked | sys/include/mm/mmap.h:8-13 | in the entry, bit 0 is set exactly if bit 1 of prot is, bit 1 if bit 2, bit 2 if bit 3, and bit 63 if bit 0 is not |
| Mmap.VirtAtIs | sys/src/mm/mmap.c:36-37 | iteration k works at virt + 4096 k modulo 2^64 |
| Mmap.VisitsPages | sys/src/mm/mmap.c:48-56 | iteration k of the loop works on the k-th page after virt's, wrapping at the top of the address space |
| Mmap.TurnKeeps | sys/src/mm/mmap.c:49-55 | an iteration keeps the invariant, every other page's translation in every root, and all frames in use |
| Mmap.TurnsKeep | sys/src/mm/mmap.c:48-57 | so do any number of iterations, each consuming at least one frame |
| Mmap.TurnsRefine | sys/src/mm/mmap.c:48-57 | the iterations on the machine are the iterations on the flat machine |
| Mmap.MmapRefines | sys/src/mm/mmap.c:44-59 | the call on the machine is `Mmap` on the flat machine, partial failure and result included |
| Mmap.MmapGives | sys/src/mm/mmap.c:44-59 | a result of 0 on the machine: either every page got its own frame that was free on entry and exactly pages plus new tables were consumed, or all but the last did, the last is as it was and no frame is left |
| Mmap.MmapReturnsZero | sys/src/mm/mmap.c:44-59 | the exact condition for a result of 0, on the machine |
| Mmap.MmapEntries | sys/src/mm/mmap.c:44-59 | when n pages from virt on returned 0, each address virt + 4096 k leads to a frame that was free before and is not now, with exactly the rights prot asks for; the last page, instead, may be as it was with no frame left |
| Mmap.MmapAt | sys/src/mm/mmap.c:26-41 | performs exactly the iterations of the page range, 32-bit counter included, and returns 0 or, with no frame left, -ENOMEM; TLB coherent on return, and newly left unflushed at most the pages visited at addresses that are not canonical |
| Mmap.CanonicalFlushed | sys/src/mm/mmap.c:29-38 | a range in one canonical half leaves nothing unflushed |
| Mmap.MapRange | sys/src/mm/mmap.c:29-38 | the loop itself, with its 32-bit counter and wrapping address |
| Mmap.MmapHere | sys/src/mm/mmap.c:44-59 | the same for the current address space, as an equation with the flat machine; the result is 0, or -2 with no frame left; after 0 every page but the last has a frame of its own with exactly the rights prot asks for |
| Mmap.ReadThenClear | sys/src/mm/mmap.c:64-65 | the two walks of munmap amount to one, and its address is the page's frame or 0 |
| Mmap.Munmap | sys/src/mm/mmap.c:62-67 | clears the page's entry and the bit of the frame it pointed at, 0 for a page not mapped; TLB coherent, up to a page at an address not canonical; the machine stays valid if and only if that frame is the caller's |
| Mmap.MunmapUnmapped | sys/src/mm/mmap.c:62-67 | munmap of a page that is not mapped makes frame 0 free and breaks the invariant |
| Mmap.OnePageMapped | sys/src/mm/mmap.c:44-59 | with one frame for the page and one for each missing table, mmap of one page returns 0 and gives it a frame |
| Mmap.MmapThenMunmap | sys/src/mm/mmap.c:44-67 | with that many frames, mmap of an unmapped page followed by munmap restores every leaf of every root and the free set except for the tables created; other frames keep their contents, tables only gain links |
| Mmap.MapAndUnmap | sys/src/mm/mmap.c:44-67 | the two calls one after the other: mmap leaves what munmap asks for, the machine is valid and restored |
| Elf.AllMappedSplit | sys/src/mm/mmap.c:48-57 | a fully successful mmap of a range is one of a first part and then of the rest |
| Elf.TurnsGivePages | sys/src/mm/mmap.c:48-57 | a fully successful mmap leaves every page with a zeroed frame of its own, free before, no table and no bitmap |
| Elf.PeekPoke | sys/src/lib/elf.c:107-109 | a byte stored at a cell of physical memory is read there, every other cell reads as before |
| Elf.StoreVirtual | sys/src/lib/elf.c:108 | a store at a canonical address, with nothing unflushed, changes the one cell its address stands for, and no translation |
| Elf.FreshCells | sys/src/lib/elf.c:105 | after mmap the bytes of a segment stand for pairwise distinct zeroed cells of its own |
| Elf.CopySegment | sys/src/lib/elf.c:107-109 | the copying loop leaves the segment's cells holding the file bytes and then zeros, and touches no frame that was in use before |
| Elf.CopiedImage | sys/src/lib/elf.c:98-111 | after the copying loop every address on the pages mapped for the segment reads as it should: file bytes inside it, zero everywhere else, the pages far beyond its end included |
| Elf.ImagedNext | sys/src/lib/elf.c:98-111 | one more header decides every address on its own pages and keeps all others |
| Elf.LoadedIffIntact | sys/src/lib/elf.c:98-111 | for headers in any order, overlapping or not, a segment is loaded at the end if and only if the image computed from the file has its bytes |
| Elf.IntactWhenDisjoint | sys/src/lib/elf.c:98-111 | for page-disjoint segments in any order that is the case if and only if the segment's bytes on pages mapped again by later headers are all zero |
| Elf.AscendingIntact | sys/src/lib/elf.c:98-111 | in ascending order every segment is intact, despite the over-mapping |
| Elf.DescendingLost | sys/src/lib/elf.c:98-111 | a file with two page-disjoint segments in descending order whose first one is lost |
| Elf.SegmentCost | sys/src/lib/elf.c:100-105 | a frame for each of the memsz+4095 pages and each missing table is exactly what full success of the mmap needs |
| Elf.CostBoundIs | sys/src/lib/elf.c:100-105 | the bound for n pages is at most n + n/512 + n/2^18 + n/2^27 + 6 |
| Elf.NeedIs | sys/src/lib/elf.c:99-105 | only a header of type 1 costs frames, and it is mapped over memsz + 4095 pages |
| Elf.NeedAdds | sys/src/lib/elf.c:98-105 | the bounds of segments add up |
| Elf.EnoughFrames | sys/src/lib/elf.c:98-105 | a number of free frames with which every segment can be mapped whatever tables exist |
| Elf.SegmentMapped | sys/src/lib/elf.c:100-105 | the mmap is the flat machine's, and with exactly the frames needed it returns 0 and backs every page of the segment with a fresh frame |
| Elf.SegmentGot | sys/src/lib/elf.c:100-105 | the frames gone are memsz + 4095 and one for each missing table, and every page has one of its own |
| Elf.TakenFrom | sys/src/lib/elf.c:105 | the entry of each of the memsz + 4095 pages is 4096 times its frame plus 7: present, writable, user, executable, nothing else |
| Elf.SegmentSpares | sys/src/lib/elf.c:98-111 | pages outside the segment's range keep their entry in every address space, and data frames in use keep their contents |
| Elf.SegmentApart | sys/src/lib/elf.c:98-111 | loading changes no page of an address space that does not share the page's slot, and no sharing |
| Elf.LoadSegment | sys/src/lib/elf.c:99-110 | the body for one PT_LOAD header: memsz + 4095 pages mapped to frames that were free, entries 4096 f + 7, as many frames gone as pages and missing tables; every address on these pages as it should be |
| Elf.PhdrRoundTrip | sys/include/lib/elf.h:441-451 | reading a program header from the file's bytes undoes its layout, wherever it stands |
| Elf.ElfLoad | sys/src/lib/elf.c:66-115 | rejects files that are missing, invalid or unsupported without touching the machine; otherwise returns e_entry, every mapped address reads as the last header on its page says, a segment is loaded if and only if it is intact in that image, and everything else is spared |
| ElfFile.LittleDigit | sys/include/lib/elf.h:423-451 | byte i of a field is its i-th digit to base 256 |
| ElfFile.EhdrRoundTrip | sys/include/lib/elf.h:423-439 | reading e_entry, e_phoff, e_phentsize and e_phnum undoes the layout of the 64-byte header; the file is accepted if and only if it begins with 7F 45 4C 46 02 01 and has machine 62, version 1 and type 2 |
| ElfFile.PhdrOffsetIs | sys/src/lib/elf.c:98 | program header k is read at e_phoff + k e_phentsize |
| ElfFile.LaidOutFields | sys/src/lib/elf.c:74-98 | of a file laid out from a header and program headers, exactly these are read |
| ElfFile.IntactReadsBack | sys/src/lib/elf.c:98-111 | through the present leaves of the address space, a segment's bytes read as the file's and then zeros if and only if it is intact in the image computed from the file |
| ElfFile.LoadFile | sys/src/lib/elf.c:66-115 | on a laid-out file: NULL and memory unchanged unless accepted, otherwise e_entry, and the segments of type 1 read back exactly if intact, all of them in ascending order |
| Heap.LoadStored | sys/src/mm/heap.c:107-109 | a byte stored in raw memory reads back, every other byte reads as before |
| Heap.AddrIncreases | sys/src/mm/heap.c:71 | headers are at strictly increasing addresses, each block's 24 + 24*size bytes before the next: the list is acyclic |
| Heap.MagicIsWord | sys/src/mm/heap.c:14-19 | in a header the four bytes read as the magic are the low half of its first word |
| Heap.HeaderBytes | sys/src/mm/heap.c:14-19 | a header begins with the bytes 0D F0 A7 0C, bit 32 is clear, size and next are the words 8 and 16 bytes on |
| Heap.HeaderBefore | sys/src/mm/heap.c:9 | a block's pointer is 24 bytes behind its header, modulo 2^64 |
| Heap.RangesDisjoint | sys/src/mm/heap.c:71 | headers and data ranges of all blocks are pairwise disjoint |
| Heap.ContainedWhen | sys/src/mm/heap.c:56 | all blocks lie inside heap_size bytes if and only if 24 times their number, 24 times all sizes but the last, and the last size fit together |
| Heap.BudgetDoesNotContain | sys/src/mm/heap.c:56 | two granted requests of 2000 bytes from a one-page heap end more than eleven pages behind its start |
| Heap.ClientStoreKeeps | sys/src/mm/heap.c:9 | a store inside one's own block leaves every header intact |
| Heap.AppendKeeps | sys/src/mm/heap.c:70-79 | the stores of kmalloc extend the list by one block and leave the others linked as before |
| Heap.AppendKeepsData | sys/src/mm/heap.c:70-79 | they change no byte of any existing block's data |
| Heap.KernelHeap.constructor | sys/src/mm/heap.c:43-52 | one empty block at the start, whatever memory held |
| Heap.KernelHeap.FirstFit | sys/src/mm/heap.c:28-40 | the walk ends and finds no free block |
| Heap.KernelHeap.Kmalloc | sys/src/mm/heap.c:55-84 | succeeds if and only if size > 0, the past requests are below the budget, and their sum plus size, in 64 bits, is at most the budget; without wrap-around that is size > 0 and all requests fitting the budget; no ASSERT fires; the i-th header is at start + 24i + 24*(sum of earlier sizes); no data changes; the heap stays valid if and only if a success had room; the pointer returned is start + 24 (number of blocks) + 24 (sum of all earlier sizes) |
| Heap.KernelHeap.Kfree | sys/src/mm/heap.c:87-102 | for any pointer memory is unchanged and the search start moves to the supposed header exactly when its four bytes, aligned or not, are the magic; the heap stays valid if and only if that is a block |
| Heap.KernelHeap.MarkFree | sys/src/mm/heap.c:94-99 | the loop keeps every link, and started at the block of ptr it changes nothing |
| Heap.KernelHeap.ClientStore | sys/src/mm/heap.c:9 | a client's store is a step of the reference heap and keeps the heap valid |
| Heap.KernelHeap.Krealloc | sys/src/mm/heap.c:104-113 | a step of the reference heap; the new block begins with the old block's bytes, as many as fit, and all other blocks keep theirs |
| Heap.CopiedFacts | sys/src/mm/heap.c:107-109 | the copying loop after n turns: list intact, n bytes arrived, older blocks unchanged, by induction over the turns |
| Heap.CopiedKeeps | sys/src/mm/heap.c:107-109 | copying into a block leaves the list intact, wherever the bytes come from |
| Heap.RunKeepsList | sys/src/mm/heap.c:28-113 | over every run of kmalloc, kfree, krealloc and client stores: list whole and increasing, every magic intact, no block ever FREE |
| Proc.TicksRotate | sys/src/proc/proc.c:124-127 | without launches the running position advances by one per tick, round the queue |
| Proc.Fairness | sys/src/proc/proc.c:103-145 | in any n consecutive launch-free ticks with n processes each is dispatched exactly once |
| Proc.FrameKept | sys/src/proc/proc.c:115-138 | the frame saved for a process at a tick stays saved until that process is interrupted again, through launches and other ticks |
| Proc.Stack.Enter | sys/src/intr/irq.asm:30-33 | the pushes of irq.asm and trap_entry lay out struct trapframe on the stack |
| Proc.Stack.Leave | sys/src/intr/trap.asm:36-55 | the pops take every register from its own word and leave the stack as before the interrupt |
| Proc.PoppedIsPushed | sys/src/intr/trap.asm:8-56 | popping a pushed frame gives the same registers |
| Proc.FrameLayout | sys/include/proc/proc.h:17-40 | words 0 to 18 of the frame are the fields of struct trapframe in their order |
| Proc.Scheduler.MakeProcess | sys/src/proc/proc.c:85-99 | appends one process as new head, keeps the queue acyclic and every other process unchanged |
| Launch.MakeSpace | sys/src/proc/proc.c:40-53 | the address space of the new process: a fork of the recorded root with one new zeroed frame mapped at the stack page, whose entry is 4096 times the frame plus 7 when the page has a table |
| Launch.NewStack | sys/src/proc/proc.c:52-53 | the page of address 0x1000 leads to the stack's frame, which was free, present, writable and open to the user |
| Launch.StoreMoves | sys/src/mm/vmm.c:77 | a store for a page of one root moves the same page of another exactly if they share its slot |
| Launch.EarlierStack | sys/src/proc/proc.c:52-53 | after any run, a launch leaves an earlier process its stack page if and only if slot 0 was absent from the recorded root when that process was forked |
| Launch.StackTaken | sys/src/proc/proc.c:52-53 | with slot 0 present, the earlier process's stack page leads to the new process's stack frame after the launch |
| Launch.MadeShares | sys/src/proc/proc.c:40-53 | the new root has a slot in common with another exactly if the recorded root has, and with the recorded root every slot that is present |
| Launch.LaunchProgram | sys/src/proc/proc.c:148-153 | the new address space, then the program loaded through the old one, then CR3: machine valid and synced, entry point returned |
| Launch.ImageReaches | sys/src/proc/proc.c:148-153 | at an address it had not mapped, the new process reads the program's byte if and only if the old address space and the recorded root had the slot in common |
| Proc.Scheduler.LaunchExec | sys/src/proc/proc.c:149-156 | a launch step of the reference queue; CR3 is the new process's, and rsp0 lies as far from the start of its kernel stack's 0x1000 bytes as from their end |
| Proc.Scheduler.Advance | sys/src/proc/proc.c:124-127 | the next process in the queue, or the first after the last; CR3 is its own, rsp0 the middle of its own kernel stack |
| Proc.Scheduler.TaskSched | sys/src/proc/proc.c:103-145 | a tick of the reference queue: the frame on the stack is saved and replaced by the next process's; CR3 and rsp0 are its own, as for Advance |
| Proc.Scheduler.TimerInterrupt | sys/src/intr/trap.asm:5-56 | from the pushes to the pops: registers saved for the interrupted process, those of the next one popped, stack below untouched |
| Proc.MiddleOfStack | sys/src/proc/proc.c:30-33 | the rsp0 computed for a kernel stack lies strictly inside its 0x1000 bytes, as far from the start as from the end |
| Proc.StacksApart | sys/include/proc/proc.h:9-10 | kernel stacks that do not overlap give different rsp0, each inside its own |
| Proc.Scheduler.PidsDistinct | sys/src/proc/proc.c:38 | two pids are equal exactly when the launches are a multiple of 65536 apart, so all are distinct up to 65536 processes |
| Proc.RegistersRoundTrip | sys/src/proc/proc.c:103-145 | the registers popped for a process are those pushed at its last tick, over any interleaving of other ticks and launches |
| Initrd.GetSize | sys/src/fs/initrd.c:22-32 | the backwards accumulator loop computes the octal value of the eleven characters, signed bytes included, in 64 bits |
| Initrd.SizeFieldExact | sys/src/fs/initrd.c:22-32 | on octal digits nothing wraps |
| Initrd.SizeRoundTrip | sys/src/fs/initrd.c:22-32 | reading inverts 11-digit octal printing for every size below 8^11 |
| Initrd.FindIsFirst | sys/src/fs/initrd.c:43-67 | `Find` is the first entry from k on with the name, or none has it |
| Initrd.Unfinished | sys/src/fs/initrd.c:55 | while the stale header in the loop guard is not the closing block, the next header is still inside the archive |
| Initrd.NotHere | sys/src/fs/initrd.c:57-63 | stepping over a header that does not match goes to the next entry of the archive |
| Initrd.Open | sys/src/fs/initrd.c:43-67 | for every well-formed archive whose first entry is empty, terminates and returns the data offset of the first later entry with that name, NULL if none; for the empty path exactly what the closing block gives |
| Tar.TarIsArchive | sys/src/fs/initrd.c:8-17 | header blocks, contents and padding to 512 bytes in a row, and a closing block, form an archive that `initrd_open` can walk |
| Tar.MemberSlice | sys/src/fs/initrd.c:63 | member k lies where the members before it end |
| Tar.OpenMember | sys/src/fs/initrd.c:43-67 | in a laid-out archive whose first member is empty, a name gives the address 512 bytes behind where the earlier members end, and the bytes there are the contents of the first later member of that name; NULL if there is none |
| Strings.StrLen | sys/src/lib/string.c:3-7 | the number of characters before the first NUL |
| Strings.StrCmp | sys/src/lib/string.c:134-150 | 0 if and only if the two strings are equal |
| Strings.ReversePrefix | sys/src/lib/string.c:97-101 | swapping ends until they meet reverses the prefix in place and leaves the rest |
| Strings.FillBackwards | sys/src/lib/string.c:70-92 | the buffer holds the digits, padding and prefix of n backwards and never overflows |
| Strings.Hex2Str | sys/src/lib/string.c:63-105 | the NUL-terminated text of n |
| Strings.Hex2Int | sys/src/lib/string.c:163-181 | the 64-bit value of the characters after spaces and an optional 0x |
| Strings.StartIs | sys/src/lib/string.c:166-168 | behind k spaces the digits start at k, or at k + 2 after a 0x |
| Strings.NibbleOfDigits | sys/src/lib/string.c:174-176 | the digits 0-9, A-F and a-f count 0 to 15 |
| Strings.HexValueWraps | sys/src/lib/string.c:178 | the value of digits is the number they stand for modulo 2^64 |
| Strings.PaddedValue | sys/src/lib/string.c:87-91 | the digits of the text of n, padding included, have the value n |
| Strings.HexTextUnique | sys/src/lib/string.c:64-92 | a string is 0x and at least two digits from 0-9A-F, without further leading zeros, of value n if and only if it is the text for n |
| Strings.RoundTrip | sys/src/lib/string.c:63-181 | parsing all characters of hex2str(n) after its 0x gives n back, for every 64-bit n |
| Strings.Dec2Str | sys/src/lib/string.c:23-52 | the printed text of every int, through the in-place reversal |
| Strings.DecTextUnique | sys/src/lib/string.c:34-40 | a string is a minimal decimal numeral of n if and only if it is the text printed for n |
| Strings.PrintedIsDecimal | sys/src/lib/string.c:31 | what is printed is a decimal numeral of n if and only if n is not the least int |

## Left out

- Identity window: the kernel reaches tables and frames through identity-mapped addresses (sys/src/mm/pmm.c:44, sys/src/mm/vmm.c:34). The model accesses physical memory directly, so it does not cover a mapping that replaces the kernel's own window; the segments of an executable and its file are taken to lie outside it.
- Boot page tables: that the tables found in CR3 at boot form a forest outside usable memory is the initial condition of every run, not proved.
- Huge pages, user access rights, accessed and dirty bits: no entry above level 1 is a large page, and new intermediate entries lack the USER bit (sys/src/mm/vmm.c:50), so translation is proved and permission is not.
- Mmap.Munmap: asks that the bitmap has a bit for the frame the page points at; the source would clear a bit outside the bitmap. `__munmap_any` is `vmm_unmap_page` on the aligned address and has no method of its own.
- Pmm.FreeFrame: asks that the bitmap has a bit for the frame, for the same reason.
- Vmm.MakePml4: the null pointer of the empty pool is frame 0 of physical memory, as everywhere in the model.
- PmmInit.Init: takes the boot loader's map as an array, asks for page-aligned disjoint usable entries, one of them large enough, frame 0 not usable, and memory reaching one frame past the last usable one (the byte stored past a short bitmap must exist). `usable_pages` is not modelled.
- `pmm_alloc_heap_base`: a loop over `pmm_alloc_frame` without a property of its own.
- Heap.KernelHeap.Kmalloc: the heap's address range is taken not to wrap. Reuse of blocks and containment in the mapped region are not claimed, because the code provides neither.
- Heap.KernelHeap.Krealloc: asks for room in the budget unless the new size is 0, because the source copies through the result without testing it.
- Elf.ElfLoad: takes the file as a byte sequence instead of a pointer into the boot archive, asks that the header table and the segments' file bytes lie inside it, that filesz <= memsz below 2^31, that the pages mapped are canonical, and that there are exactly as many frames as the mappings need (`Elf.Fits`). Without them the source goes on to copy into unmapped pages, and at an address that is not canonical it faults; neither is part of this model. The fields of `program_image_t`, and the kmalloc'd copy of the header table, are left out.
- ElfFile.LoadFile: the same for a file laid out from its headers.
- Elf.LoadSegment: asks for frames enough, for the same reason.
- Proc.Scheduler.MakeProcess: takes what `kmalloc`, `vmm_make_pml4` and the memory of the new process hold as parameters, and that its `next` field is null, which the source does not store (sys/src/proc/proc.c:37, sys/src/proc/proc.c:97). The address space is modelled separately (`Launch.MakeSpace`); ports and image are left out.
- Launch.MakeSpace: asks for a frame for the root and one for the stack; without them the source maps frame 0.
- Proc.Scheduler.LaunchExec: is about the queue; the memory side is `Launch.LaunchProgram`. The jump to ring 3 is left out.
- Launch.LaunchProgram: takes a file that `elf_load` accepts and frames enough.
- Proc.Scheduler.TimerInterrupt: starts at the pushes of the trap frame. The end-of-interrupt call before them (sys/src/intr/irq.asm:19), which may change r9 to r11 before they are pushed, the frame that iretq pops, and the trap dispatch on TRAPNO are left out.
- Tar.OpenMember: is about names; the empty path is in `Initrd.Open`.
- Initrd.Open: the archive is given; finding the boot module and the panic without one are left out. Strings are shorter than 2^32 characters, where the source cuts lengths (sys/src/lib/string.c:135-137).
- Several processors: the TLB is one processor's, and the source has no shootdown.
- Global entries (PTE bit 8), which a CR3 load does not drop: the source sets none, and entries with it are not modelled.
- Devices, console, interrupts other than the timer, VFS and tmpfs, system calls, shared-memory ports, descriptor tables, mutex, random numbers and userland: plumbing without a property that spans functions, or one the code does not have.
