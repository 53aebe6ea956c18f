# Verified model of the tiny-kernel memory core

A Dafny model of the parts of tiny-kernel that own memory, and of five smaller parts that
have one hard property each. Memory is a sequence (or array) of 64-bit words behind the
direct map, so page tables, free-list nodes and slab objects live in the same words the
clients write, and every frame argument is about those words.

| part | files |
|---|---|
| bit operators, lists in memory | `Bits.dfy`, `Sequences.dfy`, `Option.dfy`, `Lists.dfy`, `Hlist.dfy` |
| page-table mapper `vm_map`, `vmap` | `PageTables.dfy`, `PagingBits.dfy`, `TableAllocator.dfy`, `MissingTables.dfy`, `Paging.dfy`, `VmMapLaws.dfy`, `Vmm.dfy`, `VmHeap.dfy` |
| buddy allocator | `BuddyModel.dfy`, `BuddyLaws.dfy`, `BuddyMemory.dfy`, `Palloc.dfy` |
| slab allocator | `SlabModel.dfy`, `HeapModel.dfy`, `HeapSteps.dfy`, `Kmalloc.dfy` |
| boot hand-over of memory | `EfiMap.dfy`, `Bootmem.dfy`, `Boot.dfy` |
| dentry cache | `DentryModel.dfy`, `DentryChains.dfy`, `Dcache.dfy` |
| SATA reads, number printer, FAT geometry | `Sata.dfy`, `Printer.dfy`, `Fat.dfy` |

How the parts fit together:

* `PageTables.Walk` is the four-level walk of the Intel SDM, volume 3A, sections 4.5 and
  4.6. `vm_map` is imperative Dafny over the words of memory and is proved against that
  walk, for every allocator that satisfies `TableAllocator.Honest`. What it asked the
  allocator is kept in a ghost log, so that a refusal in its contract is always an answer of
  the allocator. `Vmm.BuddyIsHonest` shows that the buddy allocator is an honest one, so the
  fresh-page assumption is not assumed of the kernel.
* `BuddyModel.Alloc` and `BuddyModel.Release` say what `palloc` and `pfree` do to the blocks;
  `Palloc.BuddyAllocator` refines them on descriptors, counters and lists stored in the free
  pages. The laws over whole runs are about the functions and so hold of the class.
* `Kmalloc.KernelHeap` works on a `BuddyAllocator`; frame headers, chains and free lists are
  words of the frames, and its invariant holds after every call and after every client
  write inside a live object.
* `VmHeap` puts page tables, area records and buddy allocator into one memory.
* `Boot.BootAllocator` goes from the firmware's memory map to the initial state of the
  buddy allocator.

Where the code and its comments or names disagree the code is followed: `split_block`
splits one level per call, so `palloc` returns NULL while a larger block is free
(`BuddyLaws.PallocOutcome` says when, from the free lists before the call,
`BuddyLaws.Ladder` how often, and `BuddyLaws.NullWithFreePages` gives a state); the alignment test of `pfree` only looks at
bit 0 of the page number; `vpfree` panics for exactly one address, the one past the last
page; a LBA28 command carries its chunk only up to 256 sectors.

## Model

| member | source | states |
|---|---|---|
| PagingBits.IndexOf | src/arch/x86/mm/paging.c:77 | the shift and mask select the index of the page in the table of each level |
| PagingBits.BothAligned | src/arch/x86/mm/paging.c:80-81 | the alignment mask test means that both the physical and the virtual page start a large page of that level |
| PagingBits.EntryTests | src/arch/x86/mm/paging.c:92-97 | the present, page-size, execute-disable and address masks read the architectural fields of an entry |
| PagingBits.PermissionTest | src/arch/x86/mm/paging.c:94-95 | the permission mask comparison holds iff the entry grants every right that is asked for |
| PagingBits.FlagsTest | src/arch/x86/mm/paging.c:59-60 | the flag mask rejects exactly the words with an accessed, dirty, or higher bit |
| PagingBits.NormalizeFlags | src/arch/x86/mm/paging.c:68 | clearing the page-size bit and setting the present bit changes no other attribute of the flags |
| PagingBits.TableEntry | src/arch/x86/mm/paging.c:106 | the entry of a new table points to its frame and permits everything |
| PagingBits.LeafEntry | src/arch/x86/mm/paging.c:124 | the bitwise OR builds the leaf entry without carries into address or flags |
| PagingBits.LeafMeaning | src/arch/x86/mm/paging.c:124 | the walk reads such a leaf, of any of the three sizes, as the right frame with the requested attributes |
| PageTables.VerdictIs | src/arch/x86/mm/paging.c:82-97 | the code for a page, told from the four entries the processor reads: 0, -EEXIST or -EINVAL by the first entry that does not let the page through |
| PageTables.MappableIsUnmapped | src/arch/x86/mm/paging.c:82-96 | a page the checks accept has no translation yet |
| PageTables.LinkTable | src/arch/x86/mm/paging.c:98-107 | hanging a cleared, fresh table under an empty entry keeps the tree, every translation and every later verdict |
| PageTables.WriteLeaf | src/arch/x86/mm/paging.c:123-128 | writing a leaf into an empty entry maps exactly the pages under it and leaves all others alone |
| Paging.GoodRangeIs | src/arch/x86/mm/paging.c:55-66 | the ranges the model calls good are exactly the aligned, nonempty ones whose physical bytes exist and whose addresses are all canonical and in one half |
| Paging.CheckArguments | src/arch/x86/mm/paging.c:55-66 | the argument checks, with their overflow guards, accept exactly such ranges and exactly the flags P, R/W, U/S, PWT, PCD, PS and G, stated over every address of the range |
| Paging.NewTable | src/arch/x86/mm/paging.c:98-107 | the allocator is called once, with the memory as it is, and its answer is the method's; allocating, clearing and linking changes no translation, whatever the answer |
| Paging.PrepareStep | src/arch/x86/mm/paging.c:75-108 | one round of pass 1: the page's verdict is the error, or the tables missing on its walk, and no others, are there down to its leaf; a refusal is the allocator's last answer and happens only where a mappable page has neither a leaf slot nor a table below |
| Paging.Prepare | src/arch/x86/mm/paging.c:70-109 | pass 1 plans leaves that tile the range, changes no translation at any point, adds exactly the missing tables of the range, and returns the verdict of the original tables, or the refusal of a table the range needs |
| Paging.InstallStep | src/arch/x86/mm/paging.c:116-131 | one round of pass 2 stops at the level pass 1 stopped at and writes that leaf: exactly the pages under it become mapped, with the requested rights |
| Paging.Install | src/arch/x86/mm/paging.c:111-132 | pass 2 installs exactly the plan of pass 1, leaf by leaf, until nothing of the range is left |
| Paging.VmMap | src/arch/x86/mm/paging.c:50-134 | which arguments give -EINVAL, over every address of the range; else an exact return code: the verdict of the old tables on the range if every table asked for was granted, else the allocator's own code, and a table was missing; every granted page becomes a table at a place of its own that had none, and a call that returns 0 asks for exactly as many as the old tables lack; on success the processor's walk of every canonical address in the range reaches its own byte with the requested rights and attributes and every other walk is unchanged; on any failure every walk is unchanged; frames of other owners are untouched |
| MissingTables.CountStep | src/arch/x86/mm/paging.c:74-108 | the tables one step adds are those the old tables lack there, so the leaf chosen while tables are added is the one the old tables determine |
| MissingTables.CountShort | src/arch/x86/mm/paging.c:99-102 | when a table is refused, fewer were added than the range lacks |
| TableAllocator.HonestLog | src/arch/x86/mm/paging.c:99-102 | over all calls of one vm_map, clients keep their frames and every granted frame is new |
| TableAllocator.AlwaysServed | src/arch/x86/mm/paging.c:99-102 | an allocator that always has a page serves every request, so vm_map returns the verdict |
| VmMapLaws.DoneMaps | src/arch/x86/mm/paging.c:50-134 | a vm_map whose requests are all granted maps the range or returns the verdict: the law the next five are about |
| VmMapLaws.SuccessMeansUnmapped | src/arch/x86/mm/paging.c:82-92 | vm_map returns 0 only if no address of the range had a translation |
| VmMapLaws.OverlapIsRefused | src/arch/x86/mm/paging.c:83-93 | a range that overlaps a mapped one is refused, with any permissions and whatever the allocator answers, and changes nothing |
| VmMapLaws.RetryAfterFailure | src/arch/include/arch/x86/mm/paging.h:62-66 | two calls on one range, the first of which failed, with any writes outside the tree in between: granted its tables, the retry returns the code and makes the translations the first call would have |
| VmMapLaws.SameAsPageByPage | src/arch/x86/mm/paging.c:79-88 | the mix of 4K, 2M and 1G leaves is indistinguishable from mapping the range one page at a time |
| VmMapLaws.FirstRefused | src/arch/x86/mm/paging.c:83-96 | the code for a range is that of its first page that cannot be mapped |
| VmMapLaws.SameRefusal | src/arch/x86/mm/paging.c:83-96 | mapping page by page fails with the code vm_map returns for the whole range |
| Vmm.BuddyIsHonest | src/mm/vmm.c:14-24 | the buddy allocator gives vm_map fresh pages and never disturbs or depends on its clients' pages |
| Vmm.RequestsArePallocs | src/mm/vmm.c:14-24 | the requests of one vm_map are palloc(0) calls in a row, all but the last served; NULL becomes -ENOMEM |
| BuddyLaws.PallocOutcome | src/mm/palloc.c:94-147 | served iff a block of the order or of the next is free, panic iff no block of at least the order is, NULL otherwise, for every order |
| BuddyLaws.GrantsExactly | src/mm/palloc.c:131-162 | how many calls in a row are served, from the two free lists before the first |
| BuddyLaws.FirstRefusal | src/mm/palloc.c:131-162 | the first call not served panics iff no larger block is free, and otherwise answers NULL |
| BuddyLaws.NullWithFreePages | src/mm/palloc.c:94-147 | a state with 256 free pages in which palloc(3) answers NULL and loses full coalescing |
| Vmm.PageRefusals | src/mm/palloc.c:94-147 | palloc(0) panics iff no page is free, and answers NULL iff pages are free but no block of order 0 or 1 is |
| Vmm.VmapAdds | src/mm/vmm.c:33-44 | a new area overlaps no recorded one, and all areas keep their translations |
| Vmm.VmSpace.constructor | src/mm/vmm.c:48-52 | a space with the boot tables and no area satisfies the invariant |
| Vmm.VmSpace.Vmap | src/mm/vmm.c:27-45 | over any run of calls areas stay disjoint and mapped; an area is returned iff the record is granted, the range can be mapped and its missing tables are at most the free pages in blocks of order 0 and 1, all told from the state before the call; when tables run out it does not return iff no larger block is free; pages asked for become tables at missing places; a call that returns NULL leaves the list and all translations unchanged |
| VmHeap.HeapCallKeepsSpace | src/mm/vmm.c:29-40 | kmalloc, kfree and writes in objects keep every translation and area, and the tables stay outside the heap and the free pages |
| VmHeap.VmMapKeepsHeap | src/mm/vmm.c:38 | vm_map with tables from the same buddy allocator keeps the heap and the contents of every live object |
| VmHeap.VmapOverHeap | src/mm/vmm.c:27-45 | vmap with its record in the heap, for all arguments and answers: areas stay disjoint, mapped and described by their own live record through kmalloc, vm_map and the kfree on failure; a failed call changes no translation |
| VmHeap.RunKeeps | src/mm/vmm.c:27-45 | the same over any run of vmaps, heap calls, client writes and other clients' palloc and pfree |
| Lists.ListHeadInit | src/include/tiny/list.h:21-24 | an initialized head is the empty list |
| Lists.ListAddBetween | src/include/tiny/list.h:26-44 | insertion between neighbours, and nothing at all if the validity test fails |
| Lists.AddFrontList | src/include/tiny/list.h:62-65 | on a proper list list_add is never rejected and puts the node in front, writing list nodes only |
| Lists.ListAdd | src/include/tiny/list.h:62-65 | the method form of the above |
| Lists.DelList | src/include/tiny/list.h:81-84 | deleting any node removes exactly it |
| Lists.ListDel | src/include/tiny/list.h:81-84 | the method form of the above |
| Lists.TakeLastList | src/include/tiny/list.h:105-110 | taking the last node removes the back of the list |
| Lists.ListTakeLast | src/include/tiny/list.h:105-110 | the method form of the above, returning the back |
| BuddyModel.BuddyBits | src/mm/palloc.c:33-36 | XOR finds the other half of the enclosing block, and the mask of the merge finds the lower half |
| BuddyModel.FreeKeeps | src/mm/palloc.c:43-82 | freeing adds exactly the block's pages to the free pages and to free_pages, and keeps alignment, disjointness and full coalescing |
| BuddyModel.SplitKeeps | src/mm/palloc.c:110-128 | a split changes no page's status and moves one block one order down as two halves |
| BuddyModel.TakeKeeps | src/mm/palloc.c:145-156 | handing out a block makes exactly that block live |
| BuddyLaws.PallocKeeps | src/mm/palloc.c:131-162 | every palloc keeps the block invariant; a block it returns was free, in full, and no other page changes; coalescing is kept by calls that return a block |
| BuddyLaws.PallocCoalesced | src/mm/palloc.c:94-147 | full coalescing is lost iff the lists of the order and the next are empty and a larger block is free |
| BuddyLaws.PfreeKeeps | src/mm/palloc.c:164-182 | pfree frees exactly the live block headed there or changes nothing, and keeps coalescing |
| BuddyLaws.Ladder | src/mm/palloc.c:94-147 | if k is the smallest free order above o, the first k-o-1 calls of palloc(o) return NULL with free_pages unchanged and the next returns the start of that block |
| BuddyLaws.FreeNotLive | src/mm/palloc.c:131-182 | no page is both free and live |
| BuddyLaws.FreeBlocksAreMaximal | src/mm/palloc.c:48-73 | when coalesced, the free blocks are exactly the maximal aligned blocks inside the set of free pages |
| BuddyLaws.FreeListsFromFreePages | src/mm/palloc.c:48-79 | so the free lists, as sets, depend only on which pages are free |
| BuddyLaws.RunConserves | src/mm/palloc.c:131-182 | over any run of palloc and pfree no page is lost or invented, and coalescing survives if every palloc was served |
| BuddyLaws.FreeingAllRestores | src/mm/palloc.c:131-182 | a run that frees everything it was given restores every free list |
| BuddyMemory.UnlistMemory | src/mm/palloc.c:61 | unlinking any free block's node takes exactly it off its list, in memory |
| BuddyMemory.EnlistMemory | src/mm/palloc.c:77 | linking a loose block's node puts it at the front of its list, in memory |
| BuddyMemory.PopMemory | src/mm/palloc.c:142-143 | taking the last node finds the back of the list in memory |
| BuddyMemory.SplitMemory | src/mm/palloc.c:110-128 | splitting keeps all nine lists in memory and writes only free pages and list heads |
| BuddyMemory.PallocMemory | src/mm/palloc.c:131-162 | so does palloc, with or without zeroing, and a block asked for with zeroing comes cleared |
| BuddyMemory.ClientsSpareLists | src/mm/palloc.c:38-41 | writes inside live blocks cannot disturb the lists |
| Palloc.FieldsTell | src/mm/palloc.c:43-162 | PG_FREE marks exactly the heads of listed blocks, count 1 exactly the live heads, interior pages have order -1, and free_pages is the sum of free_count[k] * 2^k |
| Palloc.MergeTest | src/mm/palloc.c:53-59 | the four tests on the buddy's descriptor find exactly a free buddy of the same order |
| Palloc.MergeStep | src/mm/palloc.c:61-72 | absorbing the buddy keeps lists, descriptors and counters in step |
| Palloc.PfreeTest | src/mm/palloc.c:166-178 | the tests of pfree pass exactly for heads of live blocks, whose count is 1 and whose alignment test cannot fail |
| Palloc.AllocPages | src/mm/palloc.c:131-162 | a block handed out is aligned to its size and was free as a whole, and no other page stops being free; a refused call leaves every page as it was |
| Palloc.ReleasePages | src/mm/palloc.c:164-182 | pfree frees the pages of the live block headed there and no others |
| Palloc.BuddyAllocator.constructor | src/mm/palloc.c:210-256 | init_palloc establishes the invariant, fully coalesced; free is every page but page 0 that lies in a RAM region as a whole and holds no byte of the kernel image |
| Palloc.BuddyAllocator.InitRegion | src/mm/palloc.c:240-254 | one region adds exactly its whole pages |
| Palloc.BuddyAllocator.FreeSinglePage | src/mm/palloc.c:84-92 | a page that holds a byte of the kernel image, the one at its end included, is refused, any other page is freed |
| Palloc.BuddyAllocator.FreeBlock | src/mm/palloc.c:43-82 | the merge loop over descriptors and lists computes BuddyModel.Free and spares every page that is not free |
| Palloc.BuddyAllocator.SplitBlock | src/mm/palloc.c:94-129 | one split of the smallest sufficient block; panic iff there is none |
| Palloc.BuddyAllocator.TakeBlock | src/mm/palloc.c:145-161 | the back of the list is handed out; its descriptor never fails the consistency panic |
| Palloc.BuddyAllocator.Palloc | src/mm/palloc.c:131-162 | blocks, lists in memory, descriptors and counters after the call, and the result, for every order; the block is aligned, was free, and is cleared if that was asked for |
| Palloc.BuddyAllocator.Pfree | src/mm/palloc.c:164-182 | never panics, on any descriptor or NULL, and the pages of a live block headed there become free, and no others |
| Palloc.BuddyAllocator.Vpfree | src/mm/palloc.c:194-208 | panics iff the address is the one just past the last page; frees or ignores every other |
| SlabModel.Geometry | src/mm/kmalloc.c:24-27 | the objects start behind the header, aligned, and fill the 32 KiB block to its last byte, for all seven classes |
| SlabModel.NewFrame | src/mm/kmalloc.c:22-39 | the header words and objects the construction writes are a frame whose free list holds all objects, poisoned |
| SlabModel.LiveWrite | src/mm/kmalloc.c:61-86 | a client's writes inside its object change neither the header of the frame nor any free object's link or poison |
| HeapModel.RelinkHeap | src/mm/kmalloc.c:40-44 | rewriting one chain pointer keeps every frame of the heap |
| HeapModel.AddChains | src/mm/kmalloc.c:40-44 | linking the last frame to a new one extends the chain of `next` pointers by it, in all seven classes |
| HeapModel.DropChains | src/mm/kmalloc.c:51-56 | linking past a frame takes exactly it out of the chain, wherever it is |
| HeapSteps.HeaderSpares | src/mm/kmalloc.c:49-103 | writing the header of a frame touches no live object of any frame and no page outside the heap |
| SlabModel.PopObject | src/mm/kmalloc.c:69-83 | the first free object has its poison intact, and with free_list and free_count rewritten the block is a frame without it |
| SlabModel.PushObject | src/mm/kmalloc.c:90-98 | with a poisoned, linked object and the two header words rewritten the block is a frame whose free list it heads |
| HeapModel.OneFrame | src/mm/kmalloc.c:105-112 | an address lies in one frame of one class at most |
| HeapModel.ObjectsApart | src/mm/kmalloc.c:149-164 | live objects are disjoint, inside their frame behind its header, and their frame is a live buddy block |
| HeapModel.SparedHeap | src/mm/kmalloc.c:19-47 | what the buddy allocator writes never touches a frame or a live object |
| HeapSteps.NewBlock | src/mm/kmalloc.c:21 | a block palloc hands out is used by no frame, and the heap is as before |
| HeapSteps.PallocBeside | src/mm/palloc.c:131-162 | a palloc by any other client, of any order, leaves the heap and its objects as they were |
| HeapSteps.PfreeBeside | src/mm/palloc.c:164-182 | so does a pfree by another client of anything but the block of a frame |
| HeapSteps.ReleasedHeap | src/mm/kmalloc.c:49-59 | returning one frame's block leaves all other frames and objects intact |
| HeapSteps.FreeCountIsRest | src/mm/kmalloc.c:82 | a frame's free_count is its obj_count less its live objects |
| Kmalloc.ClassFor | src/mm/kmalloc.c:156-160 | the chosen class is the first whose objects are at least as large as the request |
| Kmalloc.KernelHeap.constructor | src/mm/kmalloc.c:9-17 | the empty heap satisfies the invariant |
| Kmalloc.KernelHeap.BuildFrame | src/mm/kmalloc.c:22-39 | all six header fields and every object are written in the block, they make up a frame with all objects free, and nothing else is written |
| Kmalloc.KernelHeap.AppendFrame | src/mm/kmalloc.c:40-44 | the walk along `next` ends at the last frame, and only its chain pointer, or the head of an empty chain, is written |
| Kmalloc.KernelHeap.AllocNewFrame | src/mm/kmalloc.c:19-47 | fails to return iff no block of order 3 or 4 is free; otherwise one empty frame ends the chain and no object changes |
| Kmalloc.KernelHeap.AllocObj | src/mm/kmalloc.c:61-86 | NULL iff the frame is full; otherwise its first free object, only header words are written, and the skip branch is never taken |
| Kmalloc.KernelHeap.UnlinkFrame | src/mm/kmalloc.c:51-56 | the walk finds the frame, and only the pointer that led to it, in the frame before or in the head, is written |
| Kmalloc.KernelHeap.FreeFrame | src/mm/kmalloc.c:49-59 | exactly the frame leaves the chain, its block is released, and vpfree does not panic |
| Kmalloc.KernelHeap.FreeObj | src/mm/kmalloc.c:88-103 | exactly one object less; the frame goes back to the buddy allocator iff it was the last |
| Kmalloc.KernelHeap.HasAddr | src/mm/kmalloc.c:105-113 | the walk along the chain in memory is true iff some frame of the class contains the address |
| Kmalloc.KernelHeap.SlabFree | src/mm/kmalloc.c:130-138 | the object that starts at the address is freed |
| Kmalloc.KernelHeap.SlabMalloc | src/mm/kmalloc.c:115-128 | a new object of the class; does not return iff every frame is full and no block of order 3 or 4 is free; writes only a header when some frame has room |
| Kmalloc.KernelHeap.Kmalloc | src/mm/kmalloc.c:149-164 | a new, poisoned object of the smallest class that fits, less than twice the size above 32 bytes; it lies in memory and shares no word with a live object, all of which keep their contents; does not return iff its class is full and no block of order 3 or 4 is free; NULL for other flags or larger sizes |
| Kmalloc.KernelHeap.Kfree | src/mm/kmalloc.c:166-174 | finds the class kmalloc used and frees exactly that object; ignores a pointer into no frame |
| Kmalloc.MallocThenFree | src/mm/kmalloc.c:149-174 | kfree of what kmalloc returned gives back the live objects there were, with their contents |
| Kmalloc.KernelHeap.Store | src/mm/kmalloc.c:71-80 | a client write inside a live object keeps heap and buddy allocator intact, so the poison check of every free object still passes |
| EfiMap.CleanMap | src/arch/x86/boot/init.c:26-57 | in-place compaction computes Cleaned of the original map, so no descriptor is overwritten before it is read |
| EfiMap.CleanCovers | src/arch/x86/boot/init.c:34-48 | compaction keeps exactly the usable bytes |
| EfiMap.CleanBytes | src/arch/x86/boot/init.c:34-48 | a byte is conventional memory, kind 7, afterwards iff it was in memory of kind 3, 4 or 7 |
| EfiMap.CleanMaximal | src/arch/x86/boot/init.c:38-48 | no conventional descriptor continues the one before it, so every run of neighbours has become one |
| EfiMap.CleanApart | src/arch/x86/boot/init.c:38-48 | usable descriptors that do not overlap still do not afterwards |
| EfiMap.CleanOthers | src/arch/x86/boot/init.c:50-52 | all other descriptors stay, in order |
| EfiMap.CleanIdempotent | src/arch/x86/boot/init.c:26-57 | compacting twice is compacting once |
| Bootmem.BootMemory.constructor | src/mm/bootmem.c:12-19 | no region, and the kernel image that every region keeps clear of |
| Bootmem.BootMemory.InsertRegion | src/mm/bootmem.c:35-82 | the range, rounded to whole pages, takes the first free slot, except page 0 alone and a range inside the kernel image; -ENOMEM iff all slots are taken and there is something to insert; max_pfn is the maximum |
| Bootmem.TopIs | src/mm/bootmem.c:47-49 | max_pfn is the end of the last descriptor of conventional memory or mapped I/O |
| Bootmem.BootMemory.InitBootmem | src/mm/bootmem.c:21-33 | the RAM pages are exactly the conventional pages of the map without page 0, each range of mapped I/O is a region of that kind, a size fits some region iff some usable descriptor has more room, and max_pfn is one past the last page of the map |
| Bootmem.BootMemory.Alloc | src/mm/bootmem.c:84-113 | panics iff no RAM region has more than size bytes between its aligned ends; else takes the front of the first that has, and exactly the pages it touches leave RAM |
| Boot.CleanedGood | src/arch/x86/boot/init.c:75 | compaction keeps everything bootmem relies on |
| Boot.BootAllocator | src/arch/x86/boot/init.c:75-87 | boot fails iff no conventional run of the compacted map, page 0 aside, has more room than the page array; else the free pages are exactly those of kind 3, 4 or 7 in the firmware's map, without page 0, the pages that hold a byte of the kernel image, and the page array |
| Hlist.HlistAddHead | src/include/tiny/hashtable.h:35-42 | the node becomes the first of its chain, in memory |
| Hlist.HlistDel | src/include/tiny/hashtable.h:44-51 | exactly the node leaves its chain, wherever it is, without knowing the bucket |
| DentryChains.ChainedAdd | src/include/tiny/hashtable.h:53-54 | adding a dentry's hash node to its bucket leaves the other 4095 chains in memory as they were |
| DentryChains.ChainedDel | src/include/tiny/hashtable.h:44-51 | so does taking one out of its bucket |
| DentryChains.ChainWalk | src/include/tiny/hashtable.h:59-65 | following the next pointers from the bucket meets exactly its dentries, in order, and ends in NULL |
| DentryChains.ListWalk | src/include/tiny/list.h:136-139 | following the next pointers from a dentry's list head meets exactly its children, in order, and ends at the head |
| DentryChains.ChainKeepsListed | src/include/tiny/hashtable.h:35-51 | the writes of a hash table operation leave every list of children in memory as it was |
| DentryChains.LinksKeepChained | src/include/tiny/list.h:35-50 | the writes of a list operation leave every hash chain in memory as it was |
| DentryChains.ListedAdd | src/fs/vfs.c:151-154 | list_add of a new child puts it first in its parent's list and leaves all other lists and all chains in memory as they were |
| DentryChains.ListedDel | src/fs/vfs.c:192 | list_del takes exactly the dentry out of its parent's list and leaves the rest |
| DentryModel.HashFits | src/include/tiny/hashtable.h:30-33 | a hash is a bucket number for every key |
| DentryModel.SearchesAgree | src/fs/vfs.c:165-178 | a bucket search finds a dentry iff a scan of the children does, and the same one |
| DentryModel.BucketComplete | src/fs/vfs.c:169-172 | a bucket search returns a child of the parent with exactly the name asked for, and none only if there is none |
| DentryModel.AddGood | src/fs/vfs.c:134-163 | adding a child keeps tree, buckets, agreement of the searches and reference counts |
| DentryModel.RootGood | src/fs/vfs.c:155-161 | so does adding a root |
| DentryModel.PutGood | src/include/tiny/fs/vfs.h:108-114 | so does giving up a reference, with the chain of deletions it may cause |
| DentryModel.PutMeans | src/include/tiny/fs/vfs.h:108-114 | the dentry goes iff this was its last reference, else only its count changes; with it go only dentries nobody outside holds, and the others keep name and parent |
| DentryModel.DeleteGood | src/fs/vfs.c:190-203 | so does deleting a named dentry without children |
| DentryModel.AddThenPut | src/fs/vfs.c:181-185 | a dentry that is added and put again leaves no trace |
| Dcache.DhashOf | src/fs/vfs.c:126-132 | the loop computes the fold of the sign-extended bytes and the parent's address |
| Dcache.DentryCache.constructor | src/include/tiny/hashtable.h:20-25 | the static table of empty chains satisfies the invariant |
| Dcache.DentryCache.Dget | src/include/tiny/fs/vfs.h:102-106 | one more reference, nothing else |
| Dcache.DentryCache.Dalloc | src/fs/vfs.c:134-163 | the new child has that name and parent, heads its bucket's chain and its parent's list, both in memory, has an empty list of its own, and holds its parent |
| Dcache.DentryCache.DallocRoot | src/fs/vfs.c:134-163 | the new root is its own parent and in no bucket |
| Dcache.DentryCache.BucketSearch | src/fs/vfs.c:169-172 | the walk along the chain in memory returns the first dentry of the bucket with this parent and name, and None only if no child has the name |
| Dcache.DentryCache.ListSearch | src/fs/vfs.c:174-178 | the walk along the list in memory returns the first child with this parent and name |
| Dcache.DentryCache.Dlookup | src/fs/vfs.c:165-188 | the result has exactly the name and the parent asked for; if a child has the name such a child is returned with one more reference and nothing else changes; else a new child is created, or, if the filesystem fails, everything stays as it was; the second search never finds anything |
| Dcache.DentryCache.Dput | src/include/tiny/fs/vfs.h:108-114 | the dentry goes iff this was its last reference, else its count is one less and nothing else changes; the invariant is kept through every chain of deletions |
| Dcache.DentryCache.Detach | src/fs/vfs.c:192 | the dentry leaves its parent's list in memory, without the list being known, and every chain stays |
| Dcache.DentryCache.Ddelete | src/fs/vfs.c:190-203 | the dentry leaves its parent's list and its bucket's chain in memory, and its parent loses that reference |
| Sata.FisRoundTrip | src/platform/ahci.c:197-225 | a drive takes each command FIS as a DMA read (type 27h, C bit, LBA bit, command 25h or C8h) and decodes it to the LBA it was built for, octet by octet; to the count as well, without LBA48 iff the chunk is at most 256 |
| Sata.DbcRoundTrip | src/platform/ahci.c:227-229 | the byte count fits the PRDT field and decodes back (AHCI 1.3.1, section 4.2.3.3) |
| Sata.ChunksFit | src/platform/ahci.c:189-193 | every chunk makes progress and fits the DMA buffer iff the sector size is from 9 bytes to 512 KiB |
| Sata.SataDevice.Submit | src/platform/ahci.c:85-113 | the device fills the DMA buffer with what the command asks for if header, FIS and PRDT entry describe a read it can carry out, and reports an error if not |
| Sata.SataDevice.ReadChunk | src/platform/ahci.c:195-235 | the command is a read of exactly these sectors, which one chunk fetches, or the buffer is untouched |
| Sata.SataDevice.ReadBlock | src/platform/ahci.c:169-243 | the buffer holds exactly a prefix of the range, all of it iff the call succeeds; the first error is returned, no command is repeated, and a success takes as few commands as fit the buffer |
| Printer.LowValue | src/kernel/io.c:45-49 | k digits denote the number modulo radix^k |
| Printer.PrintedParses | src/kernel/io.c:27-66 | with width 0 parsing the text gives back every 64-bit value, there is no leading zero, and 0 is one digit |
| Printer.PrintedWidth | src/kernel/io.c:51-53 | with a width the text is that many digits denoting the magnitude modulo radix^width |
| Printer.NegateWraps | src/kernel/io.c:33-38 | negation in two's complement gives the magnitude, also of the least value |
| Printer.AlwaysFits | src/kernel/io.c:28-29 | the 32-byte buffer suffices without a width and for every width up to 31, and for any width iff digits and sign are at most 32 |
| Printer.FillDigits | src/kernel/io.c:44-49 | the buffer holds the digits lowest first, zeros above, and their number, at most 22 |
| Printer.FillBuffer | src/kernel/io.c:28-59 | the buffer holds the text in reverse and the counter leaves out the sign |
| Printer.PrintNumber | src/kernel/io.c:27-66 | emits exactly the text |
| Printer.PrintNumberBuffer | src/kernel/io.c:68-107 | writes the same characters and advances over them, nothing else |
| Fat.FatSuper.ParseBpb | src/drivers/fat.c:200-243 | for power-of-two sector sizes and sums within 32 bits the volume parses iff it does not end before its data area, and the FATs, the root directory and the data lie where the fields of the boot sector say; the clusters are as many as fit, and the type follows their number; beyond 32 bits the sums are those of the code |
| Fat.FatSuper.ClusterInBounds | src/drivers/fat.c:37-40 | every data cluster lies in the data area, computed without overflow even if the metadata sum wrapped |
| Fat.FatSuper.ClustersPartition | src/drivers/fat.c:37-40 | clusters are pairwise disjoint and together are exactly the clustered sectors |
| Fat.FatSuper.FillSuper | src/drivers/fat.c:246-291 | an accepted volume has the geometry parsed, for FAT32 with a root cluster whose first sector is root_start; what is refused |
| Fat.MetadataExact | src/drivers/fat.c:216-218 | for power-of-two sector sizes the masked rounding is the real one |

## Left out

- Hardware plumbing, framebuffer, terminal, keyboard, log output, the UEFI loader, mounting, path walking and the file operations of ramfs and FAT: they would add easy members, or are stubs.
- Concurrency: counters are plain integers and no interrupt arrives during a call.
- Paging.VmMap: the two passes are methods of their own (Prepare and Install, with one method for a round of each loop), the allocator is a function on its own state and memory, and TLB flushing is the caller's business as in the source.
- Palloc.BuddyAllocator.SplitBlock: the read of `maps[9]` when no block is left is taken as the out-of-memory panic of the line below it.
- Palloc.BuddyAllocator.constructor: the page descriptors are an array of their own rather than words of the memory they describe.
- Vmm.VmSpace.Vmap: whether kmalloc grants the area record is a parameter, and the record is a value on a sequence; the tables are allocated by the specification functions of palloc that the class Palloc.BuddyAllocator is proved to compute. VmHeap.VmapOverHeap states the whole call with its kmalloc and kfree over what the methods of Kmalloc.KernelHeap and Paging.VmMap ensure, since a heap object and an allocator passed as a function cannot share one allocator object.
- Kmalloc.KernelHeap: the heads and frame counts of the static `slabs[]` are fields of the class; everything in a frame, header included, is words of memory, an `int` field with its padding being one word. The NULL of vpalloc, which slab_alloc_new_frame hands to memset, is a call that does not return. slab_clear has no caller and is left out.
- Kmalloc.KernelHeap.Kfree: a pointer that is neither a live object's start nor outside every frame is excluded, as the source cannot tell it from one.
- Kmalloc.KernelHeap.SlabFree: the same pointers are excluded.
- Bootmem.BootMemory.InsertRegion: a range that overlaps the kernel image in part is excluded; that branch inserts the pieces and then the whole. allocable_pages is left out because nothing reads it.
- Boot.BootAllocator: descriptors are page-aligned and do not wrap, as the firmware promises, and usable ones do not overlap.
- Dcache.DentryCache: the name, parent and count of a dentry are records in a map from addresses; the hash table, the hash nodes and the nodes and heads of the child lists are words of memory. Allocation succeeds and returns words no other dentry has, inodes are left out, and a dentry has a name iff it has a parent, as all callers arrange.
- Dcache.DentryCache.Dput: giving up the last reference of a root is excluded; ddelete would follow the NULL back pointer of a node that is in no chain.
- Dcache.DentryCache.Ddelete: a root, for the same reason, and a dentry that still has children, which would point to freed memory, are excluded.
- Sata.SataDevice.ReadChunk: LBA28 chunks above 256 sectors are excluded, because their count does not fit the command (Sata.FisRoundTrip shows exactly when it does), and so are ranges past the end of the medium.
- Sata.SataDevice.ReadBlock: the medium is a constant, the device is the abstract step Submit whose outcomes are a parameter, and LBA28 chunks above 256 sectors are excluded (Sata.FisRoundTrip shows why).
- Printer.FillBuffer: widths for which digits and sign exceed the 32-byte buffer are excluded, as the source writes past it; Printer.AlwaysFits says which those are.
- Printer.PrintNumber: the same widths are excluded.
- Printer.PrintNumberBuffer: the same widths are excluded.
- Printer: the callers' format parsing is left out.
- Fat.FatSuper.FillSuper: finding the device, allocations, reading the boot sector and building the root dentry are left out; following FAT chains is left out because no walk exists yet.
