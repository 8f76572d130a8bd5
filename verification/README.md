# LiOS kernel: allocators, page tables, queues and lists

This project models the data structures at the core of the LiOS x86_64 kernel and proves what they
are for. Each component has a simple meaning (a partition of an address window, a flat map, a set of
live blocks, a sequence) and the pointer, bit or byte code is proved to agree with it on every input
and over every run.

| files | component | meaning it is proved to have |
|---|---|---|
| `VmmSpec`, `VmmLimits`, `FreeList`, `BlockList`, `Vmm` | virtual range allocator (`mem/vmm.c`) | a partition of one address window into allocated blocks and maximal gaps |
| `PageBits`, `PageTable`, `PageAccess`, `AddressSpace` | four-level page tables (`mem/page.c`) | a flat last-writer-wins map from page numbers to frame numbers |
| `Bitmap`, `HeapSpec`, `NodeList`, `Heap`, `Realloc` | bitmap heap (`mem/vmalloc.c`) | a set of disjoint live blocks whose union is the bits set |
| `Nvme` | NVMe I/O queue pair (`file/nvme.c`) | the calls made, carried out once each and in order; polling is exact |
| `ArrayList` | growable array (`util/arraylist.c`) | a sequence of entries |
| `Fat32` | FAT32 chain walk (`file/fat32.c`) | the sectors of a chain, in chain order |
| `Output` | number printing and `printf` (`io/output.c`) | the numeral of the number; the text of the format |
| `KMath`, `Basics` | integer helpers (`util/kmath.c`), shared definitions | |

Where the source changes state in place, the model is a class (or a method on an array) and its
methods are proved to compute a step function on values: `Abs() == Step(old(Abs()))`. The theorems
are about the step functions, so they hold of the classes. Linked lists are real linked nodes; a
ghost sequence, tied to the links by `Valid()`, is the list they stand for. Page tables are 512 words
of 64 bits, read and written with the kernel's accessors. A `panic` is a `None` or a result `ok` that
is false; a loop that never stops is an outcome of its own. `kcalloc_page` supplies zeroed frames from a
stack of free frames. What a step function computes is also stated without it: addresses as numbers
(`PageTable.LastCallTranslates`), sectors one by one (`Fat32.ReadFile`), texts by the number they stand for
(`Output.PartsPrint`), nodes by the blocks that live in them (`HeapSpec.VfreeReleasesExactly`). The
NVMe device is a state machine beside the host, with steps in any order; what it may do follows
section 4.2 (Completion Queue Entry) of the NVM Express Base Specification 2.1. Page translation
follows section 5.3 of the AMD64 Architecture Programmer's Manual, Volume 2. The end-of-chain marks
are those of section 4 (FAT) of the Microsoft FAT specification.

## Where the code falls short of its purpose

The model does what the code does. Some properties one would expect are false of it; for each there
is a lemma that says exactly when the property holds.

- `vmm_alloc` multiplies pages by 4096 in 64 bits and accepts 0 pages. Every allocation leaves the lists
  a partition (`VmmSpec.AllocKeepsPartition`), but the address handed out stays free if and only if the
  product is zero while anything is free (`VmmSpec.AddressStaysFree`), and the next request that fits the
  first extent is then given the same address, if and only if pages is a multiple of 2^52
  (`VmmSpec.SameAddressTwice`). A free of that address takes the block meant if and only if no block of no
  bytes was recorded for it in an earlier slot (`VmmSpec.FreeTakesExactly`); after 0 pages and 1 page it
  takes the wrong one (`VmmLimits.WrongBlockFreed`).
- The list of free extents survives an allocation if and only if it is not an exact fit in the last node,
  which would then be linked to itself (`Vmm.RangeAllocator.Alloc`); a free spoils it where `FreeLinks`
  does not hold (`Vmm.RangeAllocator.Free`, `FreeList.BadIsNotChained`). Neither happens with at most 126
  live blocks (`VmmSpec.SpareByCount`, `VmmSpec.ProperRuns`). That is sharp: 254 one-page allocations and
  127 frees leave 127 live blocks and no empty slot, and the request for the whole last extent then spoils
  the list (`VmmLimits.LastExtentSpoils`); so does, with three pages more, the free of one without free
  neighbours (`VmmLimits.LonePageSpoils`).
- `page_unmap` gives a table back without clearing the entry that leads to it: the tables stay a tree
  if and only if another page under the same leaf table is mapped or the leaf table is absent
  (`PageTable.UnmapKeepsExactly`, `PageTable.GivesBackLeafByPages`). Mapping one page and unmapping it
  again breaks the tree (`PageTable.OnlyPageUnmaps`).
- `page_map` sets the user bit only in the entries it fills: a page mapped for user mode can be used from
  user mode if and only if every table that was already there on the way to it has the user bit
  (`PageAccess.MapOpensExactly`). Below a table made for a kernel page it cannot (`PageAccess.ShutBehindKernel`).
- The size of a heap node leaves out its 24-byte header: a node of k units fits in its pages if and
  only if k % 4096 >= 24 (`HeapSpec.NodeFitsExactly`). The node that `vmalloc_init` makes does not fit
  (`HeapSpec.FirstNodeOverruns`).
- `mark_bitmap` counts bytes in 32 bits: it ends if and only if the range lies in one byte or its last
  byte has a 32-bit index (`Bitmap.MarkEndsExactly`). A `vmalloc` that needs a new node therefore ends if
  and only if at most 2^38 - 16 bytes, or more than 2^64 - 8, are asked for (`HeapSpec.EndsExactly`); one
  byte more than 2^38 - 16 on a new heap finds memory and never returns (`HeapSpec.HugeRequestHangs`). A
  `vmalloc` that fits a node ends if and only if its run lies in one byte or ends by section 2^35
  (`HeapSpec.EndsInNode`); after 2^38 - 16 and 4024 bytes on a new heap, 57 bytes never return
  (`HeapSpec.SmallRequestHangs`).
- `vmalloc` adds the block header to the size in 64 bits: the block has room for the size if and only if it
  is less than 2^64 - 8 (`HeapSpec.RoomExactly`). 2^64 - 1 bytes are given a block of one section
  (`HeapSpec.WrappedRequestReturns`), and the copy of a `vrealloc` to such a size stays in the new block if
  and only if that is larger than the old one (`Realloc.CopyFitsExactly`).
- `nvme_read` and `nvme_write` look at the status after the head has moved on: the result of a call
  is that of the call 63 calls earlier, and true for the first 63 (`Nvme.ResultIsStale`,
  `Nvme.FailureUnnoticed`).
- A call of `nvme_read` or `nvme_write` for 0 blocks is one for 65536 to the device, which otherwise is
  asked exactly for what the call says (`Nvme.BuildDecodes`, `Nvme.CallsCarriedOut`).
- `fat32_read` returns 1 for the size that `fat32_open` reports; it returns 0 if and only if one
  cluster more than the file has is asked for (`Fat32.ReadClusters`).
- `fat32_read` computes the offset into the buffer in 32 bits: the buffer ends up with the file's clusters
  in order if and only if there are at most 2^23 of them (`Fat32.WholeFileExactly`). Beyond that each of
  the 2^23 places holds the last cluster stored in it (`Fat32.PlaceHolds`); of 2^23 + 1 clusters the last
  replaces the first (`Fat32.LongFileSpoilt`).
- `fat32_open` counts for ever on a cyclic chain: its loop stops if and only if there is a walk, which
  then has at most as many clusters as the table has entries (`Fat32.CountStopsExactly`,
  `Fat32.CycleNeverStops`).
- `floor_u32_div` rounds down if and only if the division is exact (`KMath.FloorDivExactly`); so a page of
  allocated-list nodes has 169 slots and not 170 (`VmmSpec.SlotCounts`).
- The comment above `printf` says 32-bit integers; the code prints all 64-bit ones
  (`Output.PrintNumber`).

## Model

| member | source | states |
|---|---|---|
| KMath.CeilDiv | src/util/kmath.c:15-18 | the least quotient whose multiple reaches the dividend |
| KMath.FloorDivExactly | src/util/kmath.c:28-31 | the result is the quotient exactly when nothing is left over, and one less in 32 bits otherwise |
| VmmSpec.SlotCounts | src/util/kmath.c:28-31 | the slots in a page of list nodes, 128 and 169, come from the division that rounds down twice |
| VmmSpec.FirstFit | src/mem/vmm.c:137-166 | the slot taken is the first that can hold the request; every earlier one is too small |
| VmmSpec.FirstTouch | src/mem/vmm.c:191-213 | the slot merged with is the first that ends or starts at the block |
| VmmSpec.FirstUnused | src/mem/vmm.c:102-112 | the first unused slot of the allocated list |
| VmmSpec.Lookup | src/mem/vmm.c:120-132 | the first slot recorded for an address |
| VmmSpec.WithRoom | src/mem/vmm.c:109-118 | after a page has been added if need be, an unused slot is there |
| VmmSpec.MoveToTailKeeps | src/mem/vmm.c:72-99 | removing a slot keeps used slots before empty ones and frees no address but that slot's |
| VmmSpec.TakeKeeps | src/mem/vmm.c:141-149 | an allocation takes exactly its addresses out of the free ones, by exact or inexact fit, and keeps extents apart |
| VmmSpec.GiveBackAtHead | src/mem/vmm.c:216-241 | a block with no free neighbour becomes a new first slot and the free extents stay apart |
| VmmSpec.OnceMerged | src/mem/vmm.c:194-209 | a merged extent that touches no other extent is apart from all of them |
| VmmSpec.TwiceMerged | src/mem/vmm.c:243-262 | block and both neighbours fill one extent, apart from every other |
| VmmSpec.GiveBackTwice | src/mem/vmm.c:243-262 | merging again and emptying the first merged slot frees exactly the block's addresses |
| VmmSpec.GiveBackKeeps | src/mem/vmm.c:190-262 | one merge and one re-scan are enough, whichever neighbours exist in whatever order: no two free extents touch and exactly the block's addresses become free |
| VmmSpec.RecordKeeps | src/mem/vmm.c:101-119 | recording a block adds its addresses and its start, and overlaps no other block |
| VmmSpec.ForgetKeeps | src/mem/vmm.c:120-132 | forgetting a block removes its addresses and its start and no other's |
| VmmSpec.InitInv | src/mem/vmm.c:58-70 | the initial lists partition the window, with no live block and a spare slot |
| VmmSpec.AllocSound | src/mem/vmm.c:134-170 | an allocation whose 64-bit byte count is not zero keeps the partition, returns addresses that were free, and adds one live block |
| VmmSpec.AllocFirstFit | src/mem/vmm.c:134-170 | every extent before the one whose start is returned is smaller than the request; that one loses its front or, if it fits exactly, leaves the list, and the others keep their order |
| VmmSpec.RequestIsZero | src/mem/vmm.c:136 | the 64-bit byte count is zero exactly for multiples of 2^52 pages |
| VmmSpec.ZeroRequestTakesNothing | src/mem/vmm.c:136-149 | a byte count of zero always succeeds, with the first extent's address, and leaves the free list as it is |
| VmmSpec.AllocKeepsPartition | src/mem/vmm.c:134-170 | every allocation, however many of no bytes there were, keeps the lists a partition into maximal gaps and blocks that do not overlap |
| VmmSpec.AddressStaysFree | src/mem/vmm.c:134-170 | the address handed out stays free exactly when the byte count is zero and anything is free |
| VmmSpec.SameAddressTwice | src/mem/vmm.c:134-170 | the next request that fits the first extent gets the same address exactly after a multiple of 2^52 pages |
| VmmSpec.FreeTakesExactly | src/mem/vmm.c:120-132 | a free gives back the block meant exactly if no block of no bytes is recorded for its address in an earlier slot |
| VmmSpec.AllocKeepsSpare | src/mem/vmm.c:134-170 | an allocation never uses up the spare slot |
| VmmSpec.AllocRecords | src/mem/vmm.c:134-170 | after an allocation the old blocks and the new one are recorded |
| VmmSpec.FreeForgetsOne | src/mem/vmm.c:172-263 | a free leaves the other blocks recorded |
| VmmSpec.BlocksApart | src/mem/vmm.c:134-170 | two recorded blocks do not overlap: no address is handed out twice |
| VmmSpec.ExtentIsMaximal | src/mem/vmm.c:190-262 | the addresses just before and just after a free extent are not free |
| VmmSpec.GapInsideExtent | src/mem/vmm.c:190-262 | every gap between blocks lies inside one free extent: the free list is the set of maximal gaps |
| VmmSpec.AllocFailsExactly | src/mem/vmm.c:134-170 | the out-of-memory panic is reached exactly when no contiguous gap has the byte count asked for |
| VmmSpec.FreeKeeps | src/mem/vmm.c:172-263 | where the list survives, a free panics exactly on an address that is not live; otherwise it keeps the partition and frees exactly that block's addresses |
| VmmSpec.NoBlockLeft | src/mem/vmm.c:172-263 | with no live block the free list is the initial one: a single extent, the whole window |
| VmmSpec.SpareLinks | src/mem/vmm.c:72-99 | with an empty last node no call spoils the links |
| VmmSpec.EndIsLive | src/mem/vmm.c:190-262 | a free extent ends at the end of the window or where a live block starts |
| VmmSpec.SpareByCount | src/mem/vmm.c:190-262 | with fewer live blocks than slots less one, the last slot is empty |
| VmmSpec.StepKeeps | src/mem/vmm.c:134-263 | one call that does not spoil the links keeps the partition |
| VmmSpec.RunKeeps | src/mem/vmm.c:58-263 | every run of such calls keeps the partition into blocks and maximal gaps |
| VmmSpec.ProperRuns | src/mem/vmm.c:58-263 | every run with at most 126 live blocks before each call keeps links and partition, whatever the list looks like inside |
| VmmSpec.ReachableInv | src/mem/vmm.c:58-263 | every state that such a run reaches from `vmm_init` is a partition and has lost no slot |
| VmmSpec.FreeAllExactly | src/mem/vmm.c:172-263 | addresses can be freed one after the other, in any order, exactly if they are live and none comes twice |
| VmmSpec.FreeAllRestores | src/mem/vmm.c:172-263 | freeing all live blocks, in any order, succeeds and restores the free list of `vmm_init` |
| VmmLimits.FreePages | src/mem/vmm.c:134-263 | the state that a run of one-page allocations and frees of every other page reaches, slot by slot |
| VmmLimits.LastExtentSpoils | src/mem/vmm.c:72-99 | a run of legal calls reaches 127 live blocks and no empty slot, where a sound request that fits spoils the links |
| VmmLimits.LonePageSpoils | src/mem/vmm.c:216-222 | a run of legal calls reaches a state in which the free of a live block spoils the links |
| VmmLimits.WrongBlockFreed | src/mem/vmm.c:120-263 | after 0 pages and 1 page, freeing the address returned takes the block of no bytes and spoils the free list |
| FreeList.SetUpFreePage | src/mem/vmm.c:44-56 | a page of nodes is linked in order, forwards and backwards, the new ones empty |
| FreeList.NewFreeList | src/mem/vmm.c:58-65 | the first page holds the whole window in its head |
| FreeList.RelinkedIsChained | src/mem/vmm.c:77-98 | the pointer updates of a removal leave a doubly linked list of the same nodes, in rotated order |
| FreeList.RotatedHolds | src/mem/vmm.c:72-99 | the nodes in rotated order store the list with the emptied slot at the end |
| FreeList.TailFirstIsChained | src/mem/vmm.c:224-239 | the pointer updates that bring the tail to the head leave a doubly linked list of the same nodes |
| FreeList.List.Relink | src/mem/vmm.c:72-99 | the links after a removal; a removed tail is linked to itself |
| FreeList.List.RemoveNode | src/mem/vmm.c:72-99 | on a node before the tail, the linked list stays well formed and its contents are those with the slot moved to the end |
| FreeList.BadIsNotChained | src/mem/vmm.c:79-98 | a node that is its own successor, or whose successor does not lead back, is in no well-formed list |
| FreeList.List.RemoveTail | src/mem/vmm.c:72-99 | removing the tail makes it its own successor |
| FreeList.List.FindFit | src/mem/vmm.c:137-166 | the pointer loop finds the node of the first fit, or none |
| FreeList.List.TakeFrom | src/mem/vmm.c:140-149 | exact fit removes the node, inexact fit shrinks it, as on the sequence; an exact fit in the tail spoils the list |
| FreeList.List.FindTouching | src/mem/vmm.c:191-213 | the pointer loop finds the first neighbour of the block, or none |
| FreeList.List.Extend | src/mem/vmm.c:196-208 | the neighbour grows by the block, to the right or to the left |
| FreeList.List.AddAtHead | src/mem/vmm.c:224-240 | the tail node, filled with the block, becomes the head of a well-formed list |
| FreeList.List.GrowAtTail | src/mem/vmm.c:217-239 | the branch that adds a page behind a tail in use spoils the list |
| FreeList.List.MergeAgain | src/mem/vmm.c:243-262 | the re-scan merges the merged node into a second neighbour if there is one; if it is the tail, that spoils the list |
| FreeList.List.GiveBackBlock | src/mem/vmm.c:190-262 | the whole of the second half of a free, on links and contents, where `PutLinks` holds; the list is spoilt where it does not |
| BlockList.SetUpBlockPage | src/mem/vmm.c:32-43 | a fresh page of unused slots, linked in order |
| BlockList.RecordInNewPage | src/mem/vmm.c:114-118 | recording after a page has been added is what the recursive call does |
| BlockList.List.FindUnused | src/mem/vmm.c:102-112 | the loop stops at the first unused slot, or at the last slot if there is none |
| BlockList.List.AddPage | src/mem/vmm.c:114-116 | the new page follows the old slots |
| BlockList.List.AddBlock | src/mem/vmm.c:101-119 | with its recursive call, records the block in the first unused slot and ends |
| BlockList.List.FindAndRemove | src/mem/vmm.c:120-132 | returns the recorded size and empties that slot, or finds nothing and changes nothing |
| Vmm.RangeAllocator.constructor | src/mem/vmm.c:58-70 | the linked lists of `vmm_init` hold the initial state |
| Vmm.RangeAllocator.Alloc | src/mem/vmm.c:134-170 | the linked lists compute the allocation step, address and panic included, and stay well formed exactly if it is no exact fit in the last node |
| Vmm.RangeAllocator.Free | src/mem/vmm.c:172-263 | the linked lists compute the free step, panic included, where `FreeLinks` holds, and are spoilt where it does not |
| PageBits.SetAddressDecodes | src/mem/page.c:49-52 | setting an entry's address changes its frame and no flag or other bit |
| PageBits.SetPresentDecodes | src/mem/page.c:34-42 | setting the present flag changes nothing else |
| PageBits.UnsetUserDecodes | src/mem/page.c:37-42 | unsetting the user flag changes nothing else |
| PageBits.LinkDecodes | src/mem/page.c:198-205 | the accessor calls that fill an entry make it present, writable and for kernel or user, for that frame |
| PageBits.LinkSets | src/mem/page.c:198-205 | as bits: present and writable, user unless for the kernel, the frame's address, and every other bit as it was |
| PageBits.DecodeInjective | src/mem/page.c:34-115 | flags, frame and remaining bits are the whole entry |
| PageBits.IndicesArePage | src/mem/page.c:17-31 | two addresses have the same four indices exactly when their quotients by 4096 agree modulo 2^36 |
| PageBits.AddressDigits | src/mem/page.c:17-31 | the four indices are the digits, in base 512, of the address divided by 4096, and the offset is the remainder |
| PageBits.FrameBegins | src/mem/page.c:106-108 | as a number, the address kept in an entry is 4096 times the quotient of the address by 4096, modulo 2^40 |
| PageBits.AlignedIsFrame | src/mem/page.c:112-115 | a page-aligned address below 2^52 is kept whole |
| PageBits.OffsetAdds | src/mem/page.c:142 | as numbers, frame and offset add up without a carry or a wrap |
| PageTable.Zeroed | src/mem/kmalloc.c:9-14 | a fresh table has no present entry |
| PageTable.DescendPaths | src/mem/page.c:153-166 | creating a table adds one path and changes no other |
| PageTable.DescendWalk | src/mem/page.c:153-166 | a newly linked table maps nothing and changes no translation |
| PageTable.DescendKeeps | src/mem/page.c:153-166 | following or creating a table keeps the tree and every translation |
| PageTable.SetLeafKeeps | src/mem/page.c:198-205 | writing a leaf entry changes one page's translation and keeps the tree |
| PageTable.MapKeeps | src/mem/page.c:145-208 | mapping keeps the tables a tree, gives the page its frame and changes no other page's translation |
| PageTable.DescendMissing | src/mem/page.c:153-166 | each new table uses one free frame and leaves one table less to create |
| PageTable.MapFailsExactly | src/mem/page.c:145-208 | mapping runs out of frames exactly when fewer are free than tables are absent |
| PageTable.GivesBackLeafByPages | src/mem/page.c:234-257 | the leaf table is given back exactly when no other page under it is mapped |
| PageTable.UnmapWalk | src/mem/page.c:211-265 | unmapping removes one page's translation and no other, whichever tables are given back |
| PageTable.UnmapKeepsExactly | src/mem/page.c:211-265 | the tables stay a tree exactly when the leaf table is not given back; one given back is still linked and is the next free frame |
| PageTable.GivesBackExactly | src/mem/page.c:234-257 | the tables given back are the deepest one, two or three of the page's, leaf first: each of them exactly when everything reached through it is on the way to the page |
| PageTable.GivenBackUnused | src/mem/page.c:246-257 | no table given back is on the way to another mapped page |
| PageTable.OnlyPageUnmaps | src/mem/page.c:246-257 | unmapping the only page mapped breaks the tree |
| PageTable.FreshMaps | src/mem/page.c:145-208 | below a zeroed PML4 any page can be mapped with three free frames |
| PageTable.StepRefines | src/mem/page.c:145-265 | one operation on the tables is one update of the flat map |
| PageTable.RunRefines | src/mem/page.c:145-265 | every run keeps the tables a tree whose walk is the flat last-writer-wins map |
| PageTable.FreshRoot | src/mem/page.c:145-208 | a zeroed PML4 is a tree that maps nothing |
| PageTable.CallsAgree | src/mem/page.c:17-31 | a map from page numbers to frame numbers and a map by table indices agree after any calls |
| PageTable.RunTranslates | src/mem/page.c:117-265 | as numbers: after any run an address translates to 4096 times the frame number last mapped at its page number, plus its remainder by 4096, or to nothing |
| PageTable.LastCallTranslates | src/mem/page.c:117-265 | the last call about the page of an address decides: after a mapping to a page-aligned address below 2^52 it translates to that address plus its own remainder by 4096, after an unmapping to nothing |
| PageAccess.DescendFills | src/mem/page.c:153-166 | following or creating a table fills its entry if that was absent, and changes no other |
| PageAccess.MapFillsEntries | src/mem/page.c:145-208 | mapping fills the page's own entry and those on the way that were absent, for kernel or user, and changes no other entry |
| PageAccess.MapOpensExactly | src/mem/page.c:145-208 | user mode can use a page mapped for it exactly if the tables already there on the way have the user bit, one mapped for the kernel never, and every other page as before |
| PageAccess.ShutBehindKernel | src/mem/page.c:153-166 | a page mapped for user mode below a table made for a kernel page cannot be used from user mode |
| AddressSpace.Place | src/mem/page.c:142 | the sum of a frame's address and an offset, as 64-bit word and as number |
| AddressSpace.Tables.Store | src/mem/page.c:34-115 | a 64-bit store changes the entry that its word decodes to and no other |
| AddressSpace.Tables.LinkWord | src/mem/page.c:153-166 | the sequence of accessor calls on one word leaves the linked word and changes no other |
| AddressSpace.Tables.Link | src/mem/page.c:198-205 | on what the word decodes to, that is a present, writable entry for the frame and for kernel or user |
| AddressSpace.Tables.Follow | src/mem/page.c:123-126 | the flag and the address read from the 64 bits are those of the entry, and the address is aligned |
| AddressSpace.Tables.Lookup | src/mem/page.c:117-140 | the four reads of 64-bit words compute the walk, and the address found is page-aligned |
| AddressSpace.Tables.VirtToPhys | src/mem/page.c:117-143 | the translation of an address: as a number, the address of the frame that the walk finds plus the remainder by 4096, and nothing exactly where the walk finds none |
| AddressSpace.Tables.EnsureTable | src/mem/page.c:153-166 | one level: the table that is there, or a zeroed free frame linked in place by the accessors |
| AddressSpace.Tables.MapPage | src/mem/page.c:145-208 | the accessor calls on 64-bit words compute the mapping step on what they decode to |
| AddressSpace.Tables.ScanUsed | src/mem/page.c:234-241 | the loop over 512 entries finds whether any other entry of each table is present |
| AddressSpace.Tables.Reclaim | src/mem/page.c:234-257 | the tables given back, and their order |
| AddressSpace.Tables.UnmapPage | src/mem/page.c:211-265 | the scan and the cleared 64-bit word compute the unmapping step |
| AddressSpace.ScanComplete | src/mem/page.c:234-241 | counting to 512 reaches every index |
| Bitmap.SetShift | src/mem/vmalloc.c:11-12 | the macros' shift picks the bit counted from the most significant one |
| Bitmap.QueryShift | src/mem/vmalloc.c:13 | the query macro reads that same bit |
| Bitmap.SetBitAt | src/mem/vmalloc.c:11-13 | setting or unsetting a bit changes that bit only |
| Bitmap.LoopStopsExactly | src/mem/vmalloc.c:105-106 | the loop over whole bytes, round by round, stops exactly when its end is a 32-bit number |
| Bitmap.MarkEndsExactly | src/mem/vmalloc.c:82-113 | marking ends exactly if the range lies in one byte or its last byte has a 32-bit index |
| Bitmap.WriteBits | src/mem/vmalloc.c:90-112 | each bit loop overwrites its range inside one byte and no other bit |
| Bitmap.WriteBytes | src/mem/vmalloc.c:105-106 | in place, the loop writes what its rounds write, which is whole bytes and no other bit |
| Bitmap.Mark | src/mem/vmalloc.c:82-113 | exactly the bits of the range are overwritten, in one byte or across bytes |
| Bitmap.FirstRun | src/mem/vmalloc.c:127-166 | plain first fit: the first run of free sections, no earlier start fits |
| Bitmap.WordIsZero | src/mem/vmalloc.c:142 | the 64-bit load is zero exactly when 64 sections are free |
| Bitmap.Scan | src/mem/vmalloc.c:129-164 | the scan that skips words finds what bit-by-bit first fit finds, and reads no byte outside the bitmap |
| HeapSpec.FirstNode | src/mem/vmalloc.c:127-166 | the node used is the first with a run that fits |
| HeapSpec.FirstOwner | src/mem/vmalloc.c:235-251 | the node found by a free is the first whose range, upper end included, holds the address |
| HeapSpec.GrownFits | src/mem/vmalloc.c:184-185 | the node added has room for the request, has whole units, and is exactly full only for whole units |
| HeapSpec.RetryShrinks | src/mem/vmalloc.c:184-187 | after a node has been added, the larger request of the retry needs one node less and marks the same run |
| HeapSpec.GivesRetry | src/mem/vmalloc.c:184-187 | the retry returns, panics or hangs as the call it belongs to does |
| HeapSpec.Layout | src/mem/vmalloc.c:41-58 | bitmap and data, without the header, fill at most the node's pages |
| HeapSpec.NodeFitsExactly | src/mem/vmalloc.c:41-58 | exactly which nodes fit in their pages with their header |
| HeapSpec.FirstNodeOverruns | src/mem/vmalloc.c:76-79 | the first node is larger than its page |
| HeapSpec.BlocksSpread | src/mem/vmalloc.c:241 | nodes on different page ranges, adjacent ones too, have data ranges that do not meet, upper ends included |
| HeapSpec.OwnerIsUnique | src/mem/vmalloc.c:235-251 | a block's header address lies in the range of its own node only, at its own section |
| HeapSpec.MarkCovers | src/mem/vmalloc.c:152-153 | marking sets exactly the bits of one more block |
| HeapSpec.HandOutKeeps | src/mem/vmalloc.c:152-162 | a block handed out overlaps no live block, and every live block keeps its bits and its header |
| HeapSpec.TakeBackKeeps | src/mem/vmalloc.c:241-243 | clearing a live block's range removes that block and touches no other |
| HeapSpec.UnusedNode | src/mem/vmalloc.c:212-216 | a node whose bitmap is zero holds no live block |
| HeapSpec.UnusedExactly | src/mem/vmalloc.c:212-216 | a node's bitmap is zero exactly when no live block is in it |
| HeapSpec.PagesReturned | src/mem/vmalloc.c:218-222 | giving a node back frees its pages, all of them and no others, and forgets its address only |
| HeapSpec.PointerIs | src/mem/vmalloc.c:21-49 | in bytes: where a block's data lies behind the node header, the bitmap and the block header, and that a node has as few pages as hold its bitmap and sections |
| HeapSpec.DropBacked | src/mem/vmalloc.c:218-222 | the range allocator takes the node's pages back without a panic, and the other nodes keep theirs |
| HeapSpec.ReleaseKeeps | src/mem/vmalloc.c:204-225 | releasing cannot fail, loses no live block and never releases the head |
| HeapSpec.VfreeFinds | src/mem/vmalloc.c:227-254 | for a live pointer a free clears that block's own range in its own node |
| HeapSpec.VfreeKeeps | src/mem/vmalloc.c:227-254 | for a live pointer both panics are unreachable, and exactly that block stops being live |
| HeapSpec.VfreeReleasesExactly | src/mem/vmalloc.c:204-254 | the node is gone exactly when it is not the head and no other live block is in it, and then its pages are free; otherwise the range allocator is as before and exactly the block's bits are cleared |
| HeapSpec.AddKeeps | src/mem/vmalloc.c:41-74 | a new node changes nothing for the live blocks |
| HeapSpec.VmallocFirstFit | src/mem/vmalloc.c:119-166 | if some node fits, no earlier section and no earlier node has a free run as long as the one handed out, and only its bits change |
| HeapSpec.VmallocAddsOne | src/mem/vmalloc.c:168-187 | if nothing fits and the sections are not whole units, one node is added, and one section more than needed is reserved at its start |
| HeapSpec.VmallocAddsTwo | src/mem/vmalloc.c:168-187 | if nothing fits and the sections are whole units, two nodes are added, and two sections more are reserved at the start of the second |
| HeapSpec.EndsExactly | src/mem/vmalloc.c:119-188 | a request that needs a new node ends exactly up to 2^38 - 16 bytes, or where adding the header wraps |
| HeapSpec.RoomExactly | src/mem/vmalloc.c:120-123 | the sections reserved hold the size and the header exactly if adding the header does not wrap |
| HeapSpec.WrappedRequestReturns | src/mem/vmalloc.c:119-166 | on a new heap 2^64 - 1 bytes are given a block of one section |
| HeapSpec.EndsInNode | src/mem/vmalloc.c:119-166 | a request that fits a node ends exactly if its run lies in one byte of the bitmap or ends by section 2^35 |
| HeapSpec.SmallRequestHangs | src/mem/vmalloc.c:119-166 | on a new heap, after two requests that return, 57 bytes find memory and never return |
| HeapSpec.HugeRequestHangs | src/mem/vmalloc.c:119-188 | on a new heap, 2^38 - 15 bytes find memory but are never handed out |
| HeapSpec.FitsExactly | src/mem/vmalloc.c:41-49 | from which size on the byte count of the node to add wraps in 64 bits |
| HeapSpec.VmallocKeeps | src/mem/vmalloc.c:119-188 | every call that returns keeps the heap invariant, adds one live block disjoint from the others, over-reserves by as many sections as it adds nodes, at most two |
| HeapSpec.VfreeUndoes | src/mem/vmalloc.c:119-254 | a free just after a first-fit allocation gives every node its old bits back |
| HeapSpec.InitHeap | src/mem/vmalloc.c:76-79 | `vmalloc_init` succeeds on a fresh range allocator and leaves a heap with no live block |
| HeapSpec.PointsToOne | src/mem/vmalloc.c:227-243 | a pointer stands for one block only |
| HeapSpec.NextKeeps | src/mem/vmalloc.c:119-254 | one call of either function that returns keeps the heap invariant |
| HeapSpec.RunKeeps | src/mem/vmalloc.c:119-254 | in every run the bits set are exactly the union of the live blocks, which are disjoint, lie inside their nodes and match their headers |
| NodeList.HeapNode.constructor | src/mem/vmalloc.c:54-61 | a new node has a zeroed bitmap of the size asked for |
| NodeList.List.Append | src/mem/vmalloc.c:54-70 | the new node becomes the last one, also of an empty list |
| NodeList.List.FindFit | src/mem/vmalloc.c:127-166 | the pointer loop and the scan find the first node and start that fit |
| NodeList.List.MarkIn | src/mem/vmalloc.c:82-113 | marking changes one node's range and no other node |
| NodeList.List.FindOwner | src/mem/vmalloc.c:235-251 | the loop finds the owning node and its true predecessor |
| NodeList.List.IsUnused | src/mem/vmalloc.c:212-216 | the byte loop finds whether any section is used |
| NodeList.List.Unlink | src/mem/vmalloc.c:218-221 | the node leaves the list, and the tail stays the last node |
| Heap.KernelHeap.AddBlock | src/mem/vmalloc.c:41-74 | pages from the range allocator become a node at the end of the list |
| Heap.KernelHeap.HandOutRun | src/mem/vmalloc.c:152-162 | bits, header and returned pointer are those of the step |
| Heap.KernelHeap.TryNodes | src/mem/vmalloc.c:127-166 | the scan over the nodes either completes the call or changes nothing |
| Heap.KernelHeap.Vmalloc | src/mem/vmalloc.c:119-188 | with the header added in 64 bits, the recursive retry computes the allocation step, panics for lack of memory, or hangs in `mark_bitmap`, each exactly when the step says so |
| Heap.KernelHeap.ReleaseIfUnused | src/mem/vmalloc.c:204-225 | a node other than the head whose bits are all clear leaves the list, and otherwise nothing changes; its assertion on the predecessor cannot fail |
| Heap.KernelHeap.Vfree | src/mem/vmalloc.c:227-254 | computes the free step for a pointer to a block: that block stops being live, and its node is given back exactly when it is not the head and no other live block is in it |
| Realloc.CopyIsSafe | src/mem/vmalloc.c:196-199 | the copy stays inside the new block, apart from its source and from every other live block |
| Realloc.CopyFitsExactly | src/mem/vmalloc.c:196-199 | the bytes copied fit the new block exactly if adding the header does not wrap or the new block is larger than the old |
| Realloc.VreallocKeeps | src/mem/vmalloc.c:196-202 | between allocation and free both blocks are live, and afterwards exactly the old one is not |
| Realloc.Memory.Copy | src/util/misc.c:9-15 | the byte loop copies a range and changes no other byte |
| Realloc.Vrealloc | src/mem/vmalloc.c:196-202 | on the heap and its bytes: the new block starts with the old bytes, the old block is released, and every other live block keeps its bytes |
| Realloc.PrefixKept | src/util/arraylist.c:23-24 | what the list relies on: the bytes in use start the new block, which has room for all that was asked for |
| Nvme.BuildDecodes | src/file/nvme.c:243-256 | what the device takes the entry for (read or write, namespace, block, count, data address) is what the call asks for, exactly when it asks for some blocks; 0 blocks come out as 65536 |
| Nvme.StatusFields | src/file/nvme.c:120-132 | which bits of a completion are the phase, the status code and its type, and that success is both being zero |
| Nvme.InitInv | src/file/nvme.c:182-227 | the zeroed queues satisfy the protocol invariant |
| Nvme.SlotPhase | src/file/nvme.c:258-264 | a slot's phase bit is that of the pass that last wrote it |
| Nvme.HeadPhase | src/file/nvme.c:258-264 | the slot at the head shows the old phase until its completion is posted, and the new one from then on |
| Nvme.PostHolds | src/file/nvme.c:258-267 | posting overwrites the next slot round the ring and no other |
| Nvme.FetchKeeps | src/file/nvme.c:259-260 | a fetch takes the next command submitted |
| Nvme.PostKeeps | src/file/nvme.c:263-267 | a completion for any command in flight keeps the ring and its phases right |
| Nvme.StepKeeps | src/file/nvme.c:243-308 | every step of host and device keeps the invariant |
| Nvme.RunInv | src/file/nvme.c:182-308 | every state of every interleaving satisfies the invariant, over any number of wraps |
| Nvme.CompletedPrefix | src/file/nvme.c:243-308 | the commands completed are the first ones submitted |
| Nvme.PollIsExact | src/file/nvme.c:258-264 | while the host waits, the phase bit at the head has changed exactly when the commands completed are all those submitted, its own included |
| Nvme.FetchesInOrder | src/file/nvme.c:243-267 | the device fetches exactly the commands submitted, once each and in order, and completes a prefix of them; between calls it has completed them all |
| Nvme.CallsCarriedOut | src/file/nvme.c:243-308 | in every reachable state the commands completed decode, in order, to the calls made; between calls to all of them |
| Nvme.NeverFull | src/file/nvme.c:266-267 | the completion ring never overruns |
| Nvme.NeverStuck | src/file/nvme.c:263-264 | a waiting host has its completion, or the device has a step to take |
| Nvme.ResultIsStale | src/file/nvme.c:266-269 | the result of a call is the status of the completion 63 earlier, or success if there is none |
| Nvme.FailureUnnoticed | src/file/nvme.c:266-273 | a run in which the first command fails and its call returns true |
| ArrayList.EntriesConcat | src/util/arraylist.c:36-50 | byte buffers put end to end are their entries put end to end, for every entry size |
| ArrayList.CutDeletes | src/util/arraylist.c:35-50 | taking out the bytes of entry k deletes exactly entry k |
| ArrayList.WriteReplaces | src/util/arraylist.c:14-26 | overwriting the bytes of an entry replaces exactly that entry |
| ArrayList.ShapeKept | src/util/arraylist.c:14-58 | capacity stays 0 or a power of two at least half used; removal never takes all room away |
| ArrayList.RunShapeOk | src/util/arraylist.c:6-58 | in every run, the same |
| ArrayList.Vrealloc | src/mem/vmalloc.c:196-202 | the new buffer starts with the old contents |
| ArrayList.List.constructor | src/util/arraylist.c:6-11 | a new list is empty |
| ArrayList.List.Add | src/util/arraylist.c:14-26 | keeps the old entries and returns the old length, on all three paths |
| ArrayList.List.Write | src/util/arraylist.c:13-26 | filling in the entry at a returned index changes that entry only |
| ArrayList.List.ShiftInPlace | src/util/arraylist.c:36-37 | the overlapping byte loop moves the later entries down by one |
| ArrayList.List.CopyWithout | src/util/arraylist.c:45-50 | the two byte loops copy all bytes but those of the entry |
| ArrayList.List.Remove | src/util/arraylist.c:28-58 | deletes exactly the entry at the index, in place or shrinking; an index out of range changes nothing |
| Fat32.EndingExactly | src/file/fat32.c:84-87 | which cluster numbers are end-of-chain marks |
| Fat32.WalkUnique | src/file/fat32.c:204-210 | from a cluster there is at most one walk that ends |
| Fat32.WalkDistinct | src/file/fat32.c:204-210 | a walk that ends visits no cluster twice |
| Fat32.WalkBounded | src/file/fat32.c:204-210 | the count loop ends within as many rounds as the table has entries |
| Fat32.CountStopsExactly | src/file/fat32.c:204-210 | for a table whose entries lead into it, the count loop stops exactly when there is a walk |
| Fat32.CycleNeverStops | src/file/fat32.c:204-210 | a cluster that leads to itself is counted for ever |
| Fat32.CountClusters | src/file/fat32.c:204-211 | the count is the chain length; the panic is reached exactly on a walk that ends in a 0 entry |
| Fat32.Gather | src/file/fat32.c:217-234 | the contents of a chain fill one sector per cluster |
| Fat32.GatherSectors | src/file/fat32.c:217-234 | sector n of the contents is the sector at the start of the data area plus the nth cluster minus 2, and how that number wraps in 32 bits |
| Fat32.PlaceHolds | src/file/fat32.c:233 | each place of the buffer ends up holding the last cluster stored at its 32-bit offset |
| Fat32.WholeFileExactly | src/file/fat32.c:217-234 | the places hold the file's clusters in order exactly if there are at most 2^23 |
| Fat32.LongFileSpoilt | src/file/fat32.c:217-234 | a chain of 2^23 + 1 clusters, and what each place holds after it |
| Fat32.ReadClusters | src/file/fat32.c:217-241 | for any size, the places of the buffer hold the clusters read, the last one stored winning, nothing beyond is written, and exactly when the return code is 0 |
| Fat32.ReadFile | src/file/fat32.c:185-241 | reading the count that opening reports gives, up to 2^23 clusters, in each 512 bytes the sector at the start of the data area plus the cluster minus 2; beyond, the last cluster stored in each place |
| Output.DigitInverse | src/io/output.c:124 | digits and their values are inverse |
| Output.DigitTable | src/io/output.c:124 | the sixteen digits in order |
| Output.NumeralParses | src/io/output.c:80-128 | a numeral parses back to its number and has no leading zero but for 0 |
| Output.CanonicalUnique | src/io/output.c:80-128 | digits without a leading zero that stand for a number are that number's numeral |
| Output.TablesArePowers | src/io/output.c:9-51 | both tables list consecutive powers of their base, enough for every 64-bit number |
| Output.PrintDigit | src/io/output.c:87-101 | printing one digit keeps the digits printed and the rest of the number adding up to the number |
| Output.PrintDigits | src/io/output.c:86-102 | the digit loop prints digits without a leading zero that parse back to the number |
| Output.PrintNumber | src/io/output.c:80-128 | what is printed is the number's numeral, for every 64-bit number and both bases |
| Output.RenderJoins | src/io/output.c:71-152 | two formats joined print one text after the other |
| Output.EscapedPrints | src/io/output.c:71-152 | a text with every percent sign doubled prints itself |
| Output.PrintsDecimal | src/io/output.c:79-103 | `%u` prints decimal digits without a leading zero that stand for the number |
| Output.PrintsHexadecimal | src/io/output.c:104-129 | `%x` prints hexadecimal digits without a leading zero that stand for the number |
| Output.PrintsText | src/io/output.c:74-146 | what `%c`, `%s` and a doubled percent sign print, and that any other letter prints nothing |
| Output.PartsPrint | src/io/output.c:71-152 | a format made of any parts prints, in order, the texts that say what the parts stand for |
| Output.Convert | src/io/output.c:74-143 | one conversion: its letter decides whether decimal or hexadecimal digits of the number, the character, the string, a percent sign or nothing is printed, and how many arguments are taken |
| Output.Printf | src/io/output.c:71-152 | prints the text of the format and returns the number of characters, in 32 bits |

## Left out

- Vmm.RangeAllocator.Free: says of a spoilt list which node no longer fits into any list, and not what later calls make of it; block ends are unbounded sums, which cannot wrap inside the window.
- VmmSpec.FreeAllExactly: leaves out address 0, which marks an unused slot.
- Physical frames, mappings and their removal inside `vmm_alloc` and `vmm_free`: the address lists only.
- The physical allocator `pmm.c`: free frames are a stack; its own lists are not modelled.
- Addresses of list nodes: nodes are objects, so where a page of nodes lies is not captured.
- TLB and CR3 effects, large kernel pages and the initial kernel mapping.
- Heap.KernelHeap.Vmalloc: where a node must be added, for sizes whose byte counts 64 bits can hold (`HeapSpec.FitsExactly`), and with an empty last node in the list of free extents, which `VmmSpec.SpareByCount` gives; not for the one size 2^64 - 8, whose sum with the header is 0, so that `mark_bitmap` is asked for no section at all.
- Realloc.Vrealloc: for new sizes below 2^64 - 8; above, the copy leaves the new block unless `Realloc.CopyFitsExactly` says otherwise.
- Heap.KernelHeap.Vfree: for pointers to a block with a stored header; a free of any other pointer reads whatever lies before it.
- Heap data is kept apart from node headers, bitmaps and block headers, so a node that overruns its pages by its header (`HeapSpec.NodeFitsExactly`) does not overwrite its neighbour in the model.
- ArrayList.Vrealloc: a fresh array with the old contents, and not the heap's blocks; `Realloc.Vrealloc` is the one on the heap, with the 8 bytes copied beyond the payload, and `Realloc.PrefixKept` is the same promise for it.
- `vcalloc`, `arraylist_free`, byte counts of array lists that overflow 64 bits.
- NVMe register setup, the admin queue, the transfer of the data itself; the physical address of the buffer is part of the call.
- Nvme.CallsCarriedOut: one host thread, as in the source; concurrent callers of `nvme_read` are not modelled.
- FAT directory lookup, `fat32_new_file` and the search for a free cluster; the disk is a function from sectors to contents that does not change during a read.
- Fat32.CountClusters: for start clusters whose walk ends, which `Fat32.CountStopsExactly` says is where the source stops.
- Output.Printf: for formats and arguments that C gives a meaning; a format that ends in a lone percent sign reads beyond its end.
- The destination of characters (screen or serial port).
- Drawing, fonts, keyboard, interrupts, system calls, ACPI, PCI, GPT, ELF loading, assembly.
