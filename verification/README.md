# A verified model of shadowOS

shadowOS is a small x86-64 kernel written in C. This project models six of its parts in Dafny and
proves what each is for. Code that computes values is modelled by functions, code that changes
memory step by step by methods and classes, and each method is proved against a specification on
plain values about which the lemmas speak.

| part | files | what is proved |
|---|---|---|
| Kernel heap | `HeapLayout`, `HeapMemory`, `Liballoc` | `kmalloc`, `kfree` and `krealloc` on header structs linked in memory keep the heap well formed and its fields in range, place a request in the first gap that fits, ask for pages only when no gap fits, keep every other payload byte, and undo each other |
| Physical pages | `PhysicalMemory`, `Pmm` | free and held pages partition the pages first pushed; the validity cache answers like the memory map exactly when its initial fill is honest |
| Page tables | `PageTables`, `PagemapRuns`, `Vmm` | four levels of tables refine a flat map over every run of maps, unmaps and new pagemaps, in which the events alone decide who sees a write; pagemaps are private below slot 256 and shared above it; what the processor permits is what the last entry says |
| ELF loader | `ElfImage`, `ElfFiles`, `Elf` | headers are read at their byte offsets; memory read through the page table is the file's bytes followed by zeros, exactly for the segments for which that is true of the code, and may be written and run as the segment says |
| Formatting and parsing | `Numerals`, `Strtol`, `FormatSpec`, `FormatGrammar`, `FormatText`, `FormatRoundTrip`, `FormatLayout`, `Nanoprintf` | which format specifiers are accepted and what each means, the text each flag, width, precision and conversion makes, its length, truncation, and exactly when `strtol` undoes it |
| Files | `VnodeTree`, `Vfs`, `Ustar`, `UstarArchive`, `Ramfs` | looking up the full path of a node gives that node; reading a written USTAR archive gives its entries back, loading it makes exactly its tree, and each entry is found under the name the archive spells |
| Scheduler | `Scheduler` | over every run: one running process, its pagemap active, registers resumed as saved, a bound on waiting, system calls undisturbed by ticks; new processes enter at their own privilege |
| Calendar | `Calendar` | a date printed from its timestamp is the same date exactly when its seconds fit 32 bits |
| Shared definitions | `Machine`, `Sequences` | machine constants and facts about sequences |

Conventions:

- Pointers are natural numbers with 0 for NULL (indices with -1 for NULL in `Tokenizing`). Structs in
  memory are maps from addresses to records; ghost fields hold the abstract value, and `Valid()` ties
  the two together.
- Page-table entries are natural numbers. A frame is 4096-aligned and below 2^52, flag words leave bits
  12 to 51 clear, so or-ing them is adding them.
- What the code takes from outside is a parameter: the pages `liballoc_alloc` would hand out (`grant`),
  the memory map, the variable arguments of a format string, the registers at an interrupt.

Where the code falls short of what one would expect, the model keeps the code and says exactly when
the expectation holds:

- `elf_load_binary` reads from the second page on as if `p_vaddr` had been page-aligned. A loaded file
  reads right if and only if the shift this makes is invisible in its bytes
  (`ElfImage.RightIffShiftUnseen`, `ElfFiles.ReadsRightIffRight`). All accepted files that contain a
  given segment are loaded right if and only if its address is aligned or its file bytes fit on the
  first page (`ElfFiles.RightIffPlaceable`, with an accepted file that fails in
  `ElfFiles.UnplaceableIsWrong`).
- A negative width argument justifies left but leaves zero padding on, so `%0*ld` prints zeros behind
  the number. `strtol` reads the printed number back if and only if that does not happen, no zero is
  added, or the number is 0 or at an end of its range (`FormatRoundTrip.ReadsBackIff`, with the failing
  family in `FormatRoundTrip.StarWidthMisreads`).
- `pmm_init` fills cache slot `j` with the j-th page behind the array, whatever it hashes to, even past
  the end of the entry. `is_page_valid` then agrees with the memory map if and only if no filled page
  outside the map sits in its own slot (`PageCache.FilledIsHonestIff`, `PageCache.AgreesIffHonest`);
  `PagePool.ShortEntryIsDishonest` gives memory maps for which it does not.
- `RTC_TO_UNIX_TIMESTAMP` counts in 32 bits. The printed date is the date again if and only if it is
  not after 7 February 2106, 06:28:15 (`Calendar.PrintsBackIffNotAfterLast`); one second later
  the timestamp is 0 (`Calendar.NextSecondWraps`).

## Model

| member | source | states |
|---|---|---|
| HeapLayout.AlignRoundTrip | kernel/src/mm/liballoc/liballoc.c:16-39 | ALIGN gives a 16-aligned pointer with room for its mark in front of it, and UNALIGN gives back the raw pointer |
| HeapLayout.HeaderSizes | kernel/src/mm/liballoc/liballoc.c:44-62 | the fields of both structs, each aligned to its size, take 40 bytes |
| HeapLayout.GapNeedsFree | kernel/src/mm/liballoc/liballoc.c:254-265 | a gap that fits a request implies that size minus usage covers it, so the accounting fields bound every gap |
| HeapLayout.SkippedBlockHasNoGap | kernel/src/mm/liballoc/liballoc.c:263-287 | a block skipped because of size minus usage has no gap for the request |
| HeapLayout.FirstGap | kernel/src/mm/liballoc/liballoc.c:293-424 | the gap chosen in a block fits, and no earlier one does |
| HeapLayout.FitsIs | kernel/src/mm/liballoc/liballoc.c:318-424 | a gap fits when 40 bytes and the bytes needed lie between the end of what is in front and what is behind |
| HeapLayout.ChooseIsFirstFit | kernel/src/mm/liballoc/liballoc.c:238-450 | no gap that fits is passed over between the start of the search, or the root, and the one chosen |
| HeapLayout.Choose | kernel/src/mm/liballoc/liballoc.c:238-450 | the place of a request is a gap that fits; it is a fresh block if and only if no gap in any block fits |
| HeapLayout.PagesFor | kernel/src/mm/liballoc/liballoc.c:157-166 | the least number of pages, but at least 16, that holds both headers and the request |
| HeapLayout.NewItemIs | kernel/src/mm/liballoc/liballoc.c:293-421 | the new item begins at the left end of its gap or behind the fresh header, holds 32 bytes more than asked for, and its payload is the next multiple of 16 with 16 bytes in front |
| HeapLayout.MallocKeepsWellFormed | kernel/src/mm/liballoc/liballoc.c:291-421 | after a request is placed anywhere it may go, items are still ordered, inside their blocks and apart, and no block is empty |
| HeapLayout.FreeKeepsWellFormed | kernel/src/mm/liballoc/liballoc.c:517-545 | the same after an item is freed and an emptied block is given back |
| HeapLayout.MallocKeepsBounded | kernel/src/mm/liballoc/liballoc.c:157-184 | a request up to `MAX_REQUEST` never makes a block whose size leaves an `unsigned int` |
| HeapLayout.LargerRequestWraps | kernel/src/mm/liballoc/liballoc.c:157-184 | a fresh block's size fits an `unsigned int` if and only if the request is at most `MAX_REQUEST` |
| HeapLayout.PayloadInsideItem | kernel/src/mm/liballoc/liballoc.c:201-206 | a payload is 16-aligned and holds the requested bytes inside its own item, behind its mark |
| HeapLayout.ItemsDisjoint | kernel/src/mm/liballoc/liballoc.c:291-421 | different live items occupy disjoint address ranges |
| HeapLayout.PayloadIsExclusive | kernel/src/mm/liballoc/liballoc.c:16-29 | a requested byte is no mark, header or requested byte of any other item and no block header |
| HeapLayout.HeaderIsUnique | kernel/src/mm/liballoc/liballoc.c:479 | an address is the header of at most one live item |
| HeapLayout.FreeUndoesMalloc | kernel/src/mm/liballoc/liballoc.c:291-545 | freeing the item just placed restores blocks, items, usages and totals, for every placement and for a fresh block |
| HeapMemory.PlaceSpells | kernel/src/mm/liballoc/liballoc.c:293-421 | the writes of each placement case leave headers, links, usage and marks spelling the layout with the new item |
| HeapMemory.RemoveSpells | kernel/src/mm/liballoc/liballoc.c:519-530 | the writes of free leave memory spelling the layout without the item |
| HeapMemory.DropSpells | kernel/src/mm/liballoc/liballoc.c:532-545 | unlinking an emptied major leaves memory spelling the remaining blocks |
| HeapMemory.AppendSpells | kernel/src/mm/liballoc/liballoc.c:177-184 | linking a new major behind the last leaves memory spelling the longer list |
| HeapMemory.WriteInPayload | kernel/src/mm/liballoc/liballoc.c:84-107 | writes into a payload disturb no header, link or mark |
| HeapMemory.PointerFindsHeader | kernel/src/mm/liballoc/liballoc.c:475-479 | the mark in front of a live payload leads back to its header |
| HeapMemory.HeadersSpell | kernel/src/mm/liballoc/liballoc.c:44-62 | next, previous and first pointers, sizes, usage, owner, magic number and request of every header |
| HeapMemory.FieldsFit | kernel/src/mm/liballoc/liballoc.c:44-62 | while block sizes are in range, every `pages`, `size` and `usage` field, and `size` and `req_size` of every live header, fits an `unsigned int`, and usage is at most size |
| HeapMemory.MajorsDetermined | kernel/src/mm/liballoc/liballoc.c:44-52 | the layout determines all block headers with their links |
| HeapMemory.WordRoundTrip | kernel/src/mm/liballoc/liballoc.c:91-95 | storing the 32-bit word loaded elsewhere copies its four bytes |
| HeapMemory.CopyWordStep | kernel/src/mm/liballoc/liballoc.c:91-95 | one word copied extends a bytewise copy by four bytes |
| Liballoc.ChooseScanned | kernel/src/mm/liballoc/liballoc.c:238-280 | a gap found after a start at the best bet and a restart at the root is the place `Choose` names |
| Liballoc.ChooseExhausted | kernel/src/mm/liballoc/liballoc.c:430-445 | when the last block has been scanned without a gap, no gap fits anywhere |
| Liballoc.BetOverIsRoomiest | kernel/src/mm/liballoc/liballoc.c:252-261 | the best bet has at least as much room as every block looked at, and is the old one unless another has more |
| Liballoc.Heap.AllocateNewPage | kernel/src/mm/liballoc/liballoc.c:152-190 | the new major's header and zeroed memory, the total raised; a warning and nothing else when there are no pages |
| Liballoc.Heap.GrowRoot | kernel/src/mm/liballoc/liballoc.c:220-232 | the first major becomes the root of an otherwise empty heap |
| Liballoc.Heap.GrowBehind | kernel/src/mm/liballoc/liballoc.c:282-286 | a new major is appended; memory spells the list with an empty block at its end |
| Liballoc.Heap.PlaceInEmpty | kernel/src/mm/liballoc/liballoc.c:291-314 | case 2: the item becomes the only one of its block |
| Liballoc.Heap.PlaceInFront | kernel/src/mm/liballoc/liballoc.c:318-346 | case 3: the item is linked in front of the first |
| Liballoc.Heap.PlaceAtEnd | kernel/src/mm/liballoc/liballoc.c:357-387 | case 4.1: the item is linked behind the last |
| Liballoc.Heap.PlaceBetween | kernel/src/mm/liballoc/liballoc.c:389-421 | case 4.2: the item is linked between two others |
| Liballoc.Heap.WalkMinors | kernel/src/mm/liballoc/liballoc.c:350-424 | the walk over the minors places the item in the first gap that fits, or changes nothing if there is none |
| Liballoc.Heap.FillBlock | kernel/src/mm/liballoc/liballoc.c:291-424 | cases 2 to 4 on one block: placed in its first gap, or unchanged and no gap |
| Liballoc.Heap.PickStart | kernel/src/mm/liballoc/liballoc.c:238-250 | the search starts at the best bet if and only if there is one with more room than the request needs, else at the root; the room to beat is the best bet's, or 0 |
| Liballoc.Heap.NoteBet | kernel/src/mm/liballoc/liballoc.c:254-261 | a block with more room than any before becomes the best bet |
| Liballoc.Heap.NextMajor | kernel/src/mm/liballoc/liballoc.c:269-286 | the next block, one restart at the root, or a new block once no gap fits anywhere; NULL only if there are no pages |
| Liballoc.Heap.SearchMajors | kernel/src/mm/liballoc/liballoc.c:252-450 | the search ends, the heap is the one with the request placed where `Choose` says, and the best bet is the roomiest of the blocks looked at |
| Liballoc.Heap.FirstMalloc | kernel/src/mm/liballoc/liballoc.c:220-232 | on an empty heap the first major becomes root, best bet and place of the request |
| Liballoc.Heap.Kmalloc | kernel/src/mm/liballoc/liballoc.c:192-459 | for any heap and request: well formed afterwards, the item at the chosen place, payload returned, all other bytes kept, NULL and a warning if and only if a fresh block was needed and no pages came; the best bet |
| Liballoc.Heap.MinorOfPointer | kernel/src/mm/liballoc/liballoc.c:31-39 | the header is 40 bytes below the pointer, less the byte 16 below it if that is under 32 |
| Liballoc.Heap.RejectMagic | kernel/src/mm/liballoc/liballoc.c:481-511 | a bad magic counts as an error, and as an overrun when one to three low bytes match |
| Liballoc.Heap.Unlink | kernel/src/mm/liballoc/liballoc.c:517-530 | accounting and list without the item |
| Liballoc.Heap.DropMajorAt | kernel/src/mm/liballoc/liballoc.c:532-545 | an empty block is unlinked; root and best bet never dangle |
| Liballoc.Heap.Settle | kernel/src/mm/liballoc/liballoc.c:532-556 | an emptied block is given back and is no bet any more; any other stays and becomes the bet when it has more room |
| Liballoc.Heap.FreeLive | kernel/src/mm/liballoc/liballoc.c:517-556 | behind a live header exactly its item goes, the header turns dead, the bet follows, and the heap stays well formed |
| Liballoc.Heap.Kfree | kernel/src/mm/liballoc/liballoc.c:461-561 | NULL and unknown pointers leave the heap alone and are counted; a live pointer's item is gone, its header dead and the heap well formed; no payload byte changes |
| Liballoc.Heap.AllocateAndFree | kernel/src/mm/liballoc/liballoc.c:192-561 | malloc and then free of its result bring back the layout, all block headers with their links, the root and both totals, and change no byte of a live payload |
| Liballoc.Heap.FreeTwice | kernel/src/mm/liballoc/liballoc.c:481-511 | a second free of the same pointer is counted as an error and changes nothing while the block is there |
| Liballoc.BetHasMoreRoom | kernel/src/mm/liballoc/liballoc.c:547-556 | a free changes the best bet if and only if its block has more room than the bet |
| Liballoc.Heap.Memcpy | kernel/src/mm/liballoc/liballoc.c:84-107 | the word-at-a-time copy of disjoint ranges is the bytewise copy |
| Liballoc.Heap.ReallocToNothing | kernel/src/mm/liballoc/liballoc.c:583-588 | asking for no bytes frees the item behind a live pointer, counts a bad one as an error, and changes no payload byte |
| Liballoc.Heap.ReallocAt | kernel/src/mm/liballoc/liballoc.c:593-648 | a bad header is counted and refused; a smaller request shrinks in place; a larger one moves, with its bytes, and every other payload stays |
| Liballoc.Heap.Krealloc | kernel/src/mm/liballoc/liballoc.c:577-649 | every branch: free, malloc, shrink in place, or move; the first old bytes arrive and every other payload byte stays |
| Liballoc.MallocKeepsPayload | kernel/src/mm/liballoc/liballoc.c:192-459 | malloc changes no requested byte of any live item |
| Liballoc.FreshPayloadIsZero | kernel/src/mm/liballoc/liballoc.c:152-190 | the requested bytes of an item on pages that have just come read as zeros |
| Liballoc.MoveBytes | kernel/src/mm/liballoc/liballoc.c:643-646 | malloc and copy together carry the old bytes over and keep all others |
| Liballoc.ShrinkKeepsWellFormed | kernel/src/mm/liballoc/liballoc.c:634-639 | recording a smaller request keeps the heap well formed |
| MemoryMap.UsablePagesDistinct | kernel/src/mm/pmm.c:174-184 | the pages of disjoint usable entries are pairwise different |
| MemoryMap.InMapIs | kernel/src/mm/pmm.c:93-101 | the scan accepts an address if and only if a usable entry, or a reclaimed one of the boot loader, contains it |
| MemoryMap.UsablePagesAre | kernel/src/mm/pmm.c:174-184 | a page is listed if and only if it begins in a usable entry, a multiple of 4096 above its base |
| MemoryMap.CarveKeepsMapOk | kernel/src/mm/pmm.c:154-158 | taking the array off an entry leaves a proper memory map |
| MemoryMap.PagesOutsideArray | kernel/src/mm/pmm.c:147-158 | no page left in the map meets the array |
| PageCache.AgreesIffHonest | kernel/src/mm/pmm.c:82-106 | the cached answer equals the scan for every address if and only if every slot is honest |
| PageCache.XorBits | kernel/src/mm/pmm.c:36-38 | each bit of the exclusive or is set if it is set in exactly one operand |
| PageCache.HashRounds | kernel/src/mm/pmm.c:30-41 | two rounds of folding and multiplying in 64 bits by the two primes, and the last fold modulo 128 |
| PageCache.EvictionKeepsHonest | kernel/src/mm/pmm.c:292-295 | entering a page of the map keeps the cache honest whatever it evicts |
| PageCache.FilledIsHonestIff | kernel/src/mm/pmm.c:160-166 | the initial fill is honest if and only if each filled page that hashes to its own slot lies in the map |
| PageCache.LongEntryIsHonest | kernel/src/mm/pmm.c:160-166 | an entry that still holds as many pages as the fill writes makes the fill honest |
| PagePool.ShortEntryIsDishonest | kernel/src/mm/pmm.c:147-166 | for any page there is a memory map whose fill puts it, outside the map, into its own slot |
| PagePool.TakingKeepsPartition | kernel/src/mm/pmm.c:253 | moving the top page to the held ones keeps free and held pages a partition of the first ones |
| PagePool.PuttingBackKeepsPartition | kernel/src/mm/pmm.c:286-298 | a held page can be pushed without overflow, and the partition stays |
| PagePool.CarvedPages | kernel/src/mm/pmm.c:138-184 | the pages to push fit the array, differ, are aligned, nonzero, in the map and clear of the array |
| PagePool.ArraySizeIs | kernel/src/mm/pmm.c:147 | the least whole number of pages with eight bytes for each usable page |
| Pmm.CountPages | kernel/src/mm/pmm.c:138-145 | the count is the number of pages in usable entries |
| Pmm.Allocator.CarveArray | kernel/src/mm/pmm.c:138-158 | the array takes the front of the first usable entry with room for it |
| Pmm.Allocator.FillCache | kernel/src/mm/pmm.c:160-166 | the first slots get the first pages behind the array, by position |
| Pmm.Allocator.PushPages | kernel/src/mm/pmm.c:174-184 | the stack holds every usable page, in order |
| Pmm.Allocator.Init | kernel/src/mm/pmm.c:126-208 | nothing is held, the stack holds all usable pages, none meets the array, and the cache is honest if and only if the fill is |
| Pmm.Allocator.IsPageValid | kernel/src/mm/pmm.c:82-106 | true for a cache hit or an address of an accepted entry; a hit is counted, nothing else changes |
| Pmm.Allocator.CheckPage | kernel/src/mm/pmm.c:82-106 | with an honest cache the answer is the scan's and the cache stays honest |
| Pmm.Allocator.RequestPage | kernel/src/mm/pmm.c:239-269 | 0 if and only if the stack is empty; else the top page, aligned, zeroed, not held before and held now |
| Pmm.Allocator.ReleasePage | kernel/src/mm/pmm.c:271-299 | a held page goes back on the stack and into its cache slot; NULL, addresses outside the map, and any address while nothing is held, push nothing |
| PageTables.FrameOfTagged | kernel/src/mm/vmm.c:59-75 | the address bits of a frame with flags are the frame |
| PageTables.FourLoads | kernel/src/mm/vmm.c:20-48 | the four loads at bits 39, 30, 21 and 12 of the address, the three tests of bit 0, and bits 12 to 51 of the last entry |
| PageTables.HalfOfAddress | kernel/src/mm/vmm.c:119-124 | slots below 256 are the addresses with bit 47 clear |
| PageTables.PermitsIffEntryAllows | kernel/src/mm/vmm.c:57-75 | the processor, which asks all four entries, permits a write, user access or fetch if and only if the last entry does |
| PageTables.IndicesArePageNumber | kernel/src/mm/vmm.c:22-25 | two addresses have the same four indices if and only if their low 48 bits have the same page number |
| PageTables.LeafTellsTheWay | kernel/src/mm/vmm.c:27-44 | walks that end in the same table used the same indices from the same pagemap, or from pagemaps linked in that kernel slot |
| PageTables.HangIsGrowth | kernel/src/mm/vmm.c:57-72 | hanging a fresh zero table into an absent slot changes no translation of any pagemap |
| PageTables.SetChangesOnePage | kernel/src/mm/vmm.c:74-75 | writing the entry a walk ends at changes that page, in that pagemap and those linked to it, and nothing else |
| PageTables.SetAfterGrowth | kernel/src/mm/vmm.c:50-76 | added tables and the final write together remap exactly one page |
| PageTables.ClearIsGrowth | kernel/src/mm/vmm.c:85-103 | clearing an entry that is not present changes no translation |
| PageTables.OpenOpens | kernel/src/mm/vmm.c:110-134 | a new pagemap is empty below slot 256, translates like the kernel's above, and disturbs no other |
| PageTables.CopyKernelHalf | kernel/src/mm/vmm.c:119-124 | zeros below slot 256, the kernel's entries above |
| PagemapRuns.StepEntry | kernel/src/mm/vmm.c:20-134 | which entry every page of every pagemap has after one map, unmap or new pagemap |
| PagemapRuns.SlotsFollowEvents | kernel/src/mm/vmm.c:57-124 | which top-level slots a pagemap has present follows from the start and the events |
| PagemapRuns.LinksFollowEvents | kernel/src/mm/vmm.c:119-124 | two pagemaps are linked in a kernel slot if and only if the events say so: the slot was present in the kernel's pagemap when the later one was made |
| PagemapRuns.NoSharingBelow | kernel/src/mm/vmm.c:119-124 | no events make two pagemaps share a slot below 256 |
| PagemapRuns.RunRefinesFlatMap | kernel/src/mm/vmm.c:20-134 | after any run, every page's entry is the frame and flags last mapped there, or none after an unmap, or what was there at the start; who sees a write is read off the events |
| PagemapRuns.LowerHalfIsPrivate | kernel/src/mm/vmm.c:110-134 | over any run without maps or unmaps of its own, a pagemap keeps its translations below slot 256 |
| PagemapRuns.KernelHalfIsShared | kernel/src/mm/vmm.c:110-134 | over any run, pagemaps linked in a kernel slot stay linked and translate alike there |
| PagemapRuns.NewPagemapIsLinked | kernel/src/mm/vmm.c:121-124 | a new pagemap is linked to the kernel's in every kernel slot present at that moment |
| Vmm.Paging.VirtToPhys | kernel/src/mm/vmm.c:20-48 | the four tests and loads compute the translation |
| Vmm.Paging.Descend | kernel/src/mm/vmm.c:57-62 | the table behind a slot, made from a fresh page when missing, with all translations kept |
| Vmm.Paging.WalkDown | kernel/src/mm/vmm.c:52-74 | three descents lead to the last-level table of the address |
| Vmm.Paging.MapPage | kernel/src/mm/vmm.c:50-76 | a step that maps one page, whose entry is the frame with the flags; when pages run out, nothing is remapped, and three free pages are always enough |
| Vmm.Paging.FindEntry | kernel/src/mm/vmm.c:80-105 | the entry the walk of an address ends at |
| Vmm.Paging.UnmapPage | kernel/src/mm/vmm.c:78-108 | a step that unmaps one page, on every branch |
| Vmm.MapRange | kernel/src/proc/scheduler.c:15-25 | every page of the range that the source pagemap maps has that frame with the given flags in the destination; all other entries of both stay |
| Vmm.Paging.OpenPagemap | kernel/src/mm/vmm.c:110-134 | a step that opens a new pagemap |
| ElfImage.PlacedOnFirstPage | kernel/src/proc/data/elf.c:139-150 | bytes on the first page are where the segment wants them |
| ElfImage.PlacedOnLaterPage | kernel/src/proc/data/elf.c:131-150 | later pages hold what the segment wants page-offset bytes further on |
| ElfImage.RightIffShiftUnseen | kernel/src/proc/data/elf.c:117-150 | a file is loaded right if and only if, from the second page on, the byte wanted equals the one wanted page-offset bytes further on |
| ElfFiles.FieldIsSum | kernel/src/proc/data/elf.c:7-41 | fields are little-endian: what one, two and four bytes add up to |
| ElfFiles.LongFieldIsSum | kernel/src/proc/data/elf.c:7-41 | eight bytes are two fields of four |
| ElfFiles.GoodHeaderBytes | kernel/src/proc/data/elf.c:77-93 | a header is accepted if and only if it begins with 7F 45 4C 46 02 and has 02 00 at byte 16 |
| ElfFiles.HeaderIsRead | kernel/src/proc/data/elf.c:95-97 | the entry point is read at byte 24, the place of the program headers at 32 and their number at 56; they are 56 bytes apart |
| ElfFiles.SegmentIsRead | kernel/src/proc/data/elf.c:31-41 | type, flags, offset, address, file size and memory size are read at bytes 0, 4, 8, 16, 32 and 40 of a program header |
| ElfFiles.FileIsAccepted | kernel/src/proc/data/elf.c:7-41 | a file written for an entry point and any list of segments on pages of their own is accepted, and the entry point and each segment are found |
| ElfFiles.UnplaceableIsWrong | kernel/src/proc/data/elf.c:72-150 | for an unaligned segment with file bytes beyond its first page there is an accepted file with just that segment that is loaded wrongly |
| ElfFiles.MisplacedReadsWrong | kernel/src/proc/data/elf.c:117-150 | where a loaded file is not right, memory read through the page table differs from what the segment asks for |
| ElfFiles.RightIffPlaceable | kernel/src/proc/data/elf.c:72-150 | all accepted files that contain the segment are loaded right if and only if its address is aligned or its file bytes fit on the first page |
| ElfFiles.ReadsRightIffRight | kernel/src/proc/data/elf.c:72-167 | after loading, every address of a segment reads as asked for if and only if the file's image is right |
| ElfImage.DifferentPages | kernel/src/proc/data/elf.c:102-119 | pages of segments on disjoint pages have different page-table entries |
| ElfImage.LoadOneMore | kernel/src/proc/data/elf.c:119-162 | loading one page keeps all pages loaded before |
| ElfImage.LoadedReadsBack | kernel/src/proc/data/elf.c:97-163 | every address of every loaded segment reads as the placed byte through an entry with the segment's flags, and as file byte or zero when the segment is placeable |
| ElfImage.LoadedPermits | kernel/src/proc/data/elf.c:106-119 | user code may read every address of a loaded segment, write it if and only if bit 1 of its flags is set, and run it if and only if bit 0 is |
| ElfImage.FlagsOf | kernel/src/proc/data/elf.c:106-112 | present and user, writable if and only if the segment is, no-execute if and only if it is not executable; the frame bits are left alone |
| Elf.FillPage | kernel/src/proc/data/elf.c:129-161 | the page holds zeros and the file bytes that belong on it; no other page changes |
| Elf.LoadPage | kernel/src/proc/data/elf.c:121-161 | one page is mapped with the segment's flags and filled; other entries and all bytes of pages held before stay |
| Elf.LoadSegment | kernel/src/proc/data/elf.c:102-162 | all pages of a segment are in memory, unless pages ran out |
| Elf.LoadBinary | kernel/src/proc/data/elf.c:72-167 | a bad header changes nothing and gives 0; else all segments are in memory under their flags, pages outside the image keep their entries, and the number in bytes 24 to 31 is returned, which happens whenever four free pages per page are there |
| Strtol.CutoffIsExact | kernel/src/lib/memory.c:360-389 | the overflow test agrees with exact arithmetic |
| Strtol.CharacterClasses | kernel/src/lib/memory.c:320-383 | which characters are blanks, and the value of every digit and letter |
| Strtol.MeaningOfParts | kernel/src/lib/memory.c:314-409 | blanks, sign, the prefix that belongs to the base, digits and something else: the signed value of the digits, held to the range of a long |
| Strtol.ScanSubject | kernel/src/lib/memory.c:320-358 | blanks, sign and base prefix are read as the grammar says |
| Strtol.PushDigitChecked | kernel/src/lib/memory.c:389-399 | one more digit, or overflow exactly when it does not fit a long |
| Strtol.ReadDigits | kernel/src/lib/memory.c:363-401 | the value of the digits read, stopping at the first one that overflows |
| Strtol.Strtol | kernel/src/lib/memory.c:314-409 | the number the text stands for, held to the range of a long, and where the digits end |
| FormatSpec.FlagOrderIsFree | kernel/src/lib/nanoprintf.h:317-346 | the flags read depend only on which flag characters come, not on their order or number, and reading stops at the first other character |
| FormatSpec.ParsedIsTidy | kernel/src/lib/nanoprintf.h:305-567 | a parsed specifier never asks for left justification and zero padding at once |
| FormatGrammar.CharactersAre | kernel/src/lib/nanoprintf.h:317-360 | the five flag characters and the ten digits, and no other |
| FormatGrammar.NumbersAre | kernel/src/lib/nanoprintf.h:347-392 | width and precision are the decimal values of their digits, 0 when there are none |
| FormatGrammar.LettersAre | kernel/src/lib/nanoprintf.h:317-459 | the characters of a specifier: percent sign, flags, width, precision, length modifier and conversion |
| FormatGrammar.TextParses | kernel/src/lib/nanoprintf.h:305-567 | for any flags, width, precision, modifier and conversion, parsing their text gives exactly those flags in any order, the values of the two numbers or stars, modifier and conversion, and ends behind it |
| FormatGrammar.ParsedIsSpelled | kernel/src/lib/nanoprintf.h:305-567 | whatever is accepted is the text of a specifier and means what that text spells |
| FormatGrammar.AcceptsIffSpelled | kernel/src/lib/nanoprintf.h:305-567 | a specifier is accepted at a percent sign if and only if one is spelled there |
| Nanoprintf.ParseFormatSpec | kernel/src/lib/nanoprintf.h:305-567 | the cursor walk computes the specifier and its length, or 0 when there is none |
| Nanoprintf.ItoaRev | kernel/src/lib/nanoprintf.h:569-580 | the decimal digits of any 64-bit signed number, last first, in at most 22 places |
| Nanoprintf.UtoaRev | kernel/src/lib/nanoprintf.h:582-593 | the digits of any 64-bit unsigned number in base 8, 10 or 16, last first, in at most 22 places |
| Numerals.ValueOfDigits | kernel/src/lib/nanoprintf.h:582-593 | reading the digits of a number gives the number |
| FormatText.DigitsFit | kernel/src/lib/nanoprintf.h:582-593 | 64-bit numbers have at most 22 digits, one less than the buffer |
| FormatText.PrintedLength | kernel/src/lib/nanoprintf.h:1240-1350 | an integer conversion prints max(width, sign + prefix + max(precision, digits)) characters |
| FormatText.SignedReadsBack | kernel/src/lib/nanoprintf.h:1037-1074 | `strtol` in base 10 gives back every signed number under any flags, width and precision |
| FormatText.UnsignedReadsBack | kernel/src/lib/nanoprintf.h:1079-1151 | `strtol` in the base of the conversion gives back unsigned numbers printed without '#' |
| FormatText.AltHexReadsBack | kernel/src/lib/nanoprintf.h:1079-1151 | base 0 gives back non-negative numbers printed with '#' in hexadecimal |
| FormatText.AltOctalReadsBack | kernel/src/lib/nanoprintf.h:1079-1151 | base 0 gives back non-negative numbers printed with '#' in octal |
| FormatRoundTrip.SignedCast | kernel/src/lib/nanoprintf.h:1037-1062 | none, h, hh and the long modifiers mean 32, 16, 8 and 64 bits: the number is congruent to the argument and in that range |
| FormatRoundTrip.UnsignedCast | kernel/src/lib/nanoprintf.h:1079-1103 | the same for unsigned conversions |
| FormatRoundTrip.PrintThenParse | kernel/src/lib/nanoprintf.h:947-1354 | for any flags, width, precision, stars and length modifier with a signed conversion, `strtol` of the output is the number if and only if no padding zeros follow a number they change |
| FormatRoundTrip.PrintThenParseUnsigned | kernel/src/lib/nanoprintf.h:947-1354 | the same for unsigned, octal and hexadecimal without '#', in that base |
| FormatRoundTrip.PrintThenParseHex | kernel/src/lib/nanoprintf.h:947-1354 | the same in base 0 for '#' hexadecimal |
| FormatRoundTrip.PrintThenParseOctal | kernel/src/lib/nanoprintf.h:947-1354 | the same in base 0 for '#' octal |
| FormatRoundTrip.ReadsBackIff | kernel/src/lib/nanoprintf.h:947-1354 | all integer conversions together: the output is a C string, always read back for a width in the format string, and otherwise exactly under that condition |
| FormatRoundTrip.SignedRoundTrip | kernel/src/lib/nanoprintf.h:947-1354 | a signed argument in the 8, 16, 32 or 64 bits of its type is what `strtol` reads in base 10 |
| FormatRoundTrip.UnsignedRoundTrip | kernel/src/lib/nanoprintf.h:947-1354 | an unsigned one is what it reads in base 10, 8 or 16, while a long can hold it |
| FormatRoundTrip.LeftSigned | kernel/src/lib/nanoprintf.h:968-977 | zero padding turned left by a width argument makes the number read as itself times a power of ten, held to the range of a long |
| FormatRoundTrip.StarWidthMisreads | kernel/src/lib/nanoprintf.h:968-977 | a number below 100 in a wider field is never read back when a negative width argument turns zero padding left |
| FormatRoundTrip.StarWidthExample | kernel/src/lib/nanoprintf.h:968-977 | `%0*ld` with a width argument of -5 is such a format string |
| FormatRoundTrip.PrintedIsCString | kernel/src/lib/nanoprintf.h:1240-1350 | no integer conversion prints a terminator |
| FormatLayout.SignedLayout | kernel/src/lib/nanoprintf.h:1037-1350 | the whole text of a signed conversion: sign by the flags, zeros by the precision, digits, and padding behind, inside or in front |
| FormatLayout.UnsignedLayout | kernel/src/lib/nanoprintf.h:1079-1350 | the same for unsigned conversions, with their base, case and hexadecimal prefix |
| FormatLayout.OctalLayout | kernel/src/lib/nanoprintf.h:1105-1151 | '#' makes an octal number begin with 0 |
| FormatLayout.StringLayout | kernel/src/lib/nanoprintf.h:1022-1036 | a string, cut to the precision and padded with blanks |
| FormatLayout.OtherLayouts | kernel/src/lib/nanoprintf.h:1012-1021 | a character, a percent sign, and a pointer as 0x and its digits |
| FormatLayout.DigitsAreThese | kernel/src/lib/nanoprintf.h:582-593 | decimal digits and the letters to f, in the case asked for |
| FormatLayout.PlainText | kernel/src/lib/nanoprintf.h:947-963 | text without a percent sign is printed as it is |
| FormatLayout.SpecThenRest | kernel/src/lib/nanoprintf.h:947-1354 | a specifier prints its text and the rest goes on behind it with the arguments behind those it takes |
| FormatLayout.StarValues | kernel/src/lib/nanoprintf.h:968-990 | what a width or precision argument does, with its sign |
| FormatLayout.ArgumentsTaken | kernel/src/lib/nanoprintf.h:968-990 | how many arguments a specifier takes, stars included |
| FormatLayout.StrayPercent | kernel/src/lib/nanoprintf.h:955-963 | a percent sign that starts no specifier is printed |
| Nanoprintf.ConvertInto | kernel/src/lib/nanoprintf.h:991-1160 | sign, prefix, digits and precision of each conversion, digits backwards in the 23-byte buffer |
| Nanoprintf.Sink.Putc | kernel/src/lib/nanoprintf.h:902-929 | one more character is counted, and stored while there is room |
| Nanoprintf.PutPiece | kernel/src/lib/nanoprintf.h:1240-1350 | padding, prefix, sign, precision zeros and digits come out in the right order |
| Nanoprintf.Vpprintf | kernel/src/lib/nanoprintf.h:947-1354 | what is put is the text of the whole format string, and the count its length |
| Nanoprintf.Vsnprintf | kernel/src/lib/nanoprintf.h:1378-1402 | the result is the untruncated length for every buffer; the buffer holds a terminated prefix of that one text, and nothing behind its size changes |
| Nanoprintf.PrintAndRead | kernel/src/lib/nanoprintf.h:1378-1402 | measuring, printing into a buffer of that size and reading the buffer with `strtol` gives the number back, exactly under the condition above |
| VnodeTree.PlaceIsUnique | kernel/src/dev/vfs.h:46-73 | unique sibling names make a node known by its root and path |
| VnodeTree.NamedIsPlace | kernel/src/dev/vfs.c:87-99 | a lookup under a node finds the node one step below, and NULL only if there is none |
| VnodeTree.WalkFinds | kernel/src/dev/vfs.c:361-392 | from any node, names joined by slashes, with or without a slash at the end, lead to the node below that has them |
| VnodeTree.WalkMisses | kernel/src/dev/vfs.c:372-381 | without a child of that name nothing is found |
| VnodeTree.MountsInTurn | kernel/src/dev/vfs.c:346-392 | the first mount that knows the path answers, and nothing is found if none does |
| VnodeTree.PathRoundTrip | kernel/src/dev/vfs.c:346-526 | looking up the full path of a node in its mount gives that node |
| VnodeTree.AddKeepsTree | kernel/src/fs/ramfs.c:125-181 | appending a node with a new name keeps lists, parents and unique names |
| Vfs.FileSystem.Lookup | kernel/src/dev/vfs.c:87-99 | the first child with the name, or NULL |
| Vfs.FileSystem.ReadName | kernel/src/dev/vfs.c:366-371 | the name up to a slash, the end or 255 characters |
| Vfs.FileSystem.LazyLookup | kernel/src/dev/vfs.c:346-393 | the walk of the path, tried in each mount until one knows it; NULL for paths without a leading slash |
| Vfs.FileSystem.MeasurePath | kernel/src/dev/vfs.c:460-475 | the length of the path, refused exactly above 1000 names |
| Vfs.FileSystem.BackFill | kernel/src/dev/vfs.c:484-507 | filling backwards ends at index 0 with the whole path, or gives up exactly when too much is left |
| Vfs.FileSystem.FullPath | kernel/src/dev/vfs.c:440-526 | the terminated path text; NULL if and only if there is no node, no memory or the path is too long |
| Vfs.TooLongIffTooDeep | kernel/src/dev/vfs.c:460-507 | for names of at most 255 characters only a depth above 1000 makes a path too long |
| Vfs.TooLongIs | kernel/src/dev/vfs.c:470-507 | too long means more than 1000 names, or more than 1000000 characters in front of a name |
| Vfs.FileSystem.LastChild | kernel/src/fs/ramfs.c:169-180 | the end of the child list |
| Vfs.FileSystem.Create | kernel/src/fs/ramfs.c:106-185 | NULL if and only if the parent is no directory or has the name or memory is out; else exactly one node is appended |
| Vfs.FileSystem.Read | kernel/src/fs/ramfs.c:32-56 | the bytes from the offset, as many as asked for and there are, and the error results |
| Tokenizing.Tokenizer.Strtok | kernel/src/lib/memory.c:257-285 | the next name of the string or of where the last call stopped; one terminator is written, or nothing when no name is left |
| Tokenizing.Tokenizer.ScanSpan | kernel/src/lib/memory.c:171-213 | the length of the run of delimiters, or of other characters |
| Ustar.OctalSize | kernel/src/fs/ramfs.c:209 | a size field of octal digits and a terminator means the number they spell |
| Ustar.TokensAreNames | kernel/src/fs/ramfs.c:226-254 | the names of an entry are non-empty, without slashes and short enough to look up |
| Ustar.TokensOfJoined | kernel/src/fs/ramfs.c:226-254 | splitting the text of a path, with or without a slash at its end, gives the path's names |
| Ustar.SpelledPath | kernel/src/fs/ramfs.c:211-226 | an entry spelled with or without "./" in front and a slash behind has the path written |
| Ustar.TopIsSkipped | kernel/src/fs/ramfs.c:211-222 | the entries for the top directory have no path |
| Ustar.HeaderMeans | kernel/src/fs/ramfs.c:202-210 | byte 156 is '5' for directories; octal digits at byte 124 are the size of the contents at byte 512 and tell where the next header is |
| Ustar.LoadKeeps | kernel/src/fs/ramfs.c:231-293 | what is in a place stays whatever is loaded |
| UstarArchive.EntryIsRead | kernel/src/fs/ramfs.c:202-222 | a header written for a name, kind and contents is read as just those |
| UstarArchive.ArchiveRoundTrip | kernel/src/fs/ramfs.c:193-297 | reading the archive written for any list of entries gives their paths, kinds and bytes back, in order |
| Ustar.ItemsHaveNames | kernel/src/fs/ramfs.c:226-254 | every path in an archive is made of proper names |
| Ustar.WellOrderedLoads | kernel/src/fs/ramfs.c:193-297 | an archive with parents before children and no path twice can be loaded, and adds its items, each with kind and bytes, and nothing else |
| Ustar.ItemResolves | kernel/src/fs/ramfs.c:193-297 | looking an archived path up, with or without a slash at its end, finds a node of the right kind with the archived bytes |
| Ustar.EntryResolves | kernel/src/fs/ramfs.c:193-297 | the text in an entry's header, behind a slash and without "./", is a path under which it is found: a directory if byte 156 is '5', else a file with its bytes |
| Ramfs.MissingIsLast | kernel/src/fs/ramfs.c:231-253 | when parents are there, only the last name of an entry can be missing |
| Ramfs.EnterName | kernel/src/fs/ramfs.c:231-251 | one name is found, made as a directory, or left missing as a file |
| Ramfs.EnterPath | kernel/src/fs/ramfs.c:226-255 | the names of an entry are walked; a missing directory is made, a missing file's name and parent are found |
| Ramfs.PlaceFile | kernel/src/fs/ramfs.c:257-293 | a missing file is made with its bytes; one that is there stays |
| Ramfs.ReadEntryName | kernel/src/fs/ramfs.c:211-222 | the name without "./", and which entries are skipped |
| Ramfs.LoadEntry | kernel/src/fs/ramfs.c:202-295 | one entry does to the tree what its item says, cuts only its own name, and the next header is whole blocks further |
| Ramfs.InitUstar | kernel/src/fs/ramfs.c:193-297 | the loader ends, and the tree is what the archive's items make of it; for a well-ordered archive exactly the archived tree is added |
| Ramfs.LoadAndFind | kernel/src/fs/ramfs.c:193-297 | loading a well-ordered archive and then looking up an entry by the name in its header finds a directory if byte 156 is '5', else a file with the bytes behind the header, as many as the octal digits at byte 124 say |
| SchedulerModel.StepIsSafe | kernel/src/proc/scheduler.c:40-154 | every spawn, tick and system-call mark keeps at most one process running, the current one, with its pagemap active |
| SchedulerModel.RunIsSafe | kernel/src/proc/scheduler.c:40-154 | the same over every run |
| SchedulerModel.StoredIsLastSaved | kernel/src/proc/scheduler.c:109-124 | the registers stored for a process are those of its last saving tick, or of its spawn |
| SchedulerModel.ResumesLastSaved | kernel/src/proc/scheduler.c:126-138 | a tick that starts a process hands out exactly those registers and activates its pagemap |
| SchedulerModel.WaitIsBounded | kernel/src/proc/scheduler.c:117-122 | no process waits longer than count times the slice |
| SchedulerModel.TickBringsNearer | kernel/src/proc/scheduler.c:100-154 | every tick outside a system call brings every waiting process nearer to its turn |
| SchedulerModel.Fair | kernel/src/proc/scheduler.c:100-154 | between spawns every process runs within count times the slice of ticks outside system calls |
| SchedulerModel.SyscallIsUndisturbed | kernel/src/sys/intr.c:217-261 | any number of ticks during a system call leave everything as it was and return to the interrupted code |
| Scheduler.Pcb.AddVnode | kernel/src/proc/scheduler.c:215-226 | the descriptor is appended, or refused when the table is full |
| Scheduler.Pcb.RemoveVnode | kernel/src/proc/scheduler.c:241-258 | the descriptor is taken out of the list, or refused when it is not open |
| Scheduler.Table.Tick | kernel/src/proc/scheduler.c:100-154 | the table after a tick, and the registers returned, are those of the state machine |
| Scheduler.Table.MarkSyscall | kernel/src/sys/intr.c:217-261 | the mark set and cleared around a system call is the state machine's event |
| Scheduler.Table.Spawn | kernel/src/proc/scheduler.c:40-98 | the new process is ready under the next pid with one tick, standard output open, at its entry point on its own stack, with the selectors of its privilege and interrupts on |
| Scheduler.SelectorsFitDescriptors | kernel/src/sys/gdt.c:15-19 | both selectors name present descriptors of the privilege they ask for, an executable and a writable one |
| Calendar.OrderIsKept | kernel/src/dev/time/rtc.h:30-44 | later dates have more seconds |
| Calendar.SecondsAreUnique | kernel/src/dev/time/rtc.h:30-44 | different dates have different seconds |
| Calendar.MonthsAlternate | kernel/src/dev/time/rtc.h:24-40 | months have 31 and 30 days in turn but for the break behind July, February 28 or 29 by the 4, 100 and 400 rule |
| Calendar.SecondsInClosedForm | kernel/src/dev/time/rtc.h:30-44 | the count of seconds as a formula of year, month, day and time without tables or loops |
| Calendar.ToUnixTimestamp | kernel/src/dev/time/rtc.h:30-44 | the exact count of seconds modulo 2^32 |
| Calendar.FromUnixOfSeconds | kernel/src/dev/vfs.h:150-162 | splitting the seconds of a date gives the date |
| Calendar.SplitTimestamp | kernel/src/dev/vfs.h:152-162 | the year and month loops compute the date of a timestamp |
| Calendar.TimestampToString | kernel/src/dev/vfs.h:150-169 | the buffer holds the text of the date of the timestamp plus the offset |
| Calendar.TextIsUnique | kernel/src/dev/vfs.h:163-169 | dates before the year 10000 with the same text are the same |
| Calendar.TextSpells | kernel/src/dev/vfs.h:163-169 | the text spells year, month, day, hour, minute and second in decimal with the usual separators |
| Calendar.PrintsBackIffNoWrap | kernel/src/dev/vfs.h:150-169 | the text of a date's 32-bit timestamp is the date's text if and only if its seconds are below 2^32 |
| Calendar.NoWrapIffNotAfterLast | kernel/src/dev/time/rtc.h:30-44 | the 32-bit count wraps for exactly the dates after 7 February 2106, 06:28:15 |
| Calendar.PrintsBackIffNotAfterLast | kernel/src/dev/vfs.h:150-169 | the printed date is the date again if and only if it is not after that second |
| Calendar.PrintsEarlierDate | kernel/src/dev/vfs.h:150-169 | a date counted 2^32 seconds after another prints as that other one |
| Calendar.NextSecondWraps | kernel/src/dev/time/rtc.h:30-44 | the first date that wraps has the timestamp of the epoch |

## Left out

- The virtual memory areas of kernel/src/mm/vma.c: the heap takes its pages from a provider that returns fresh, disjoint ranges or NULL.
- `kcalloc`.
- Liballoc.Heap.Kmalloc: requests above `MAX_REQUEST`, whose block size would wrap in an `unsigned int`, are excluded.
- Liballoc.Heap.Krealloc: the same bound on requests, and pages when it has to grow, because the code copies to the NULL it gets otherwise; the best bet afterwards is that of the malloc and free it makes, and not stated again.
- Liballoc.Heap.Kfree: a pointer that is not NULL must have some header in front of it, live or dead, because the code reads one there.
- The secondary page cache, which is never filled, and `pmm_vmm_cleanup`, which nothing calls.
- Pmm.Allocator.Init: needs a usable entry with room for the array, without which the code goes on with no array.
- Pmm.Allocator.ReleasePage: a page of the map that is not held is excluded while others are held; the code would push it a second time.
- Vmm.Paging.Descend: stops when no page is left for a missing table, where the code goes on through NULL.
- Vmm.Paging.WalkDown: stops in the same case.
- Vmm.Paging.MapPage: stops in the same case. The physical address must be a 4096-aligned frame below 2^52; the unaligned stack addresses of kernel/src/mm/vmm.c:167-169 and the higher-half address of kernel/src/proc/scheduler.c:73 are not.
- Vmm.Paging.OpenPagemap: gives 0 when no page is left, where the code's test for NULL comes after the higher-half offset was added.
- `invlpg` and control registers; `vmm_init` and `vmm_destroy_pagemap`, which are loops over or single calls of what is modelled.
- Elf.LoadSegment: segments must lie below 2^48, inside the file and on pages of their own.
- Elf.LoadBinary: also stops when a table cannot be allocated; the same holds of every segment of the image.
- ElfFiles.RightIffPlaceable: covers segments whose first misplaced byte lies behind one ELF header and one program header; for a byte inside the headers the file's contents are not free, and only the condition for each file applies.
- `scheduler_exit` and the TERMINATED branch of the tick, after which pids are no longer dense; spawn's stack allocation and mappings, of which only the stack address enters.
- Scheduler.Table.Spawn: needs a free place among `PROC_MAX_PROCS`, which the code never tests (kernel/src/proc/scheduler.c:49 and 90).
- Float, binary and `%n` conversions, which are compiled out; widths and precisions as written are unbounded integers.
- `vfs_delete_node`, mounting, devices and permission checks; mounts are a list of roots.
- Vfs.FileSystem.Create: directories have the RAM file system's create operation; `Ramfs` calls it with memory to spare.
- Owner, mode and time fields of vnodes, and writes to files.
- Ramfs.InitUstar: entries whose parent directory is missing are excluded, because the code then goes on with a NULL parent.
- Ramfs.LoadEntry: sizes whose rounding up leaves 32 bits are excluded, as are names of 100 characters without a terminator.
- `strncpy`, `strncat` and the other one-loop string helpers, which would only add easy members.
- Locks, interrupts between steps, hardware access, logging and boot code: each call is one step.
