# A verified model of a teaching kernel's memory, tasks, lists and number conversion

This project models the hard core of a small x86-64 teaching kernel in Dafny and proves what each
part is for. `dafny verify dfyconfig.toml` checks all of it.

| files | what they model |
|---|---|
| `Bits`, `Paging` | 64-bit words as naturals with the shifts and masks of C; the address macros; physical memory as frames of 512 words and the hardware walk of 4-level paging with 4 KB pages |
| `AddressSpace`, `MemoryState` | the page-table tree as a map from address prefixes to frames, its encoding in memory, and what holds of memory, bitmap and tree together |
| `FrameBitmap`, `AllocatorRuns`, `Pmap` | the free-page bitmap, boot reservation, and whole runs of the two frame allocators |
| `Kernel`, `Boot`, `Heap`, `HeapRuns`, `Main` | `getPT`, `setup_page_tables`, `mmap` through the recursive slot, `kmalloc`, and the path from the loader's memory map to a running heap |
| `ContextSwitch`, `Tasks`, `TaskRuns`, `Scheduler`, `TaskStructs` | the `int $0x80` stub, the scheduler's list, the refinement of independent virtual processors, and the task structs that `kmalloc` returns |
| `Sequences`, `Options` | insertion, removal and rotation of sequences; a value that may be missing |
| `Rings`, `HashLists` | the circular lists and the hash lists of `include/linux/list.h` |
| `Numbers`, `Tar` | `itoa`, `atoi`, `pow`, `octal_decimal`, `getSize`, `strcmp`, `readTarfile` |

Main results:

* **Paging.** Walking the recursive addresses of v reaches exactly the tables that the walk of v goes
  through. `mmap` changes the translation of one page and of no other, and every access it makes on the
  way translates. `setup_page_tables` maps the kernel range and the video page, and nothing else, from
  any contents of memory, exactly if the range lies in one 2 MB region. A store outside the kernel image
  and the bitmap cannot harm the kernel. Every table has one parent entry, one level, and is neither
  free nor mapped as a page.
* **Frames and heap.** No interleaving of the allocators hands out a page twice. From a boot state the
  i-th page returned is known exactly, although the pre-scan takes a page number for a byte index
  (sys/pmap.c:120) and the test `!(byte >> k) & 1` (sys/pmap.c:123) asks for all higher bits to be clear
  too. A kernel that serves any requests of `kmalloc`, `kmalloc_page` and `malloc` keeps every region mapped
  to its own frames, which nothing else maps. How many frames a run needs is counted exactly.
* **Tasks.** Over any run of work, switches and new tasks, the machine refines one processor a task: a
  task resumes with the fourteen registers, rip, cs, rflags, rsp, ss and live stack it left with. The
  machine of links, pushes and pops that the code describes carries out every such run, from an empty
  list on. Switching rotates the list, so every task is current once in each round.
* **Lists.** Each operation refines the operation on sequences; cutting and splicing back, and a full
  round of rotations, are the identity.
* **Numbers and archive.** `itoa` denotes its argument, `atoi` undoes it exactly up to 2147483599,
  `octal_decimal` never overflows, and `readTarfile` finds the first file of a name in every archive in
  which its skip formula is right for the files it passes over. For any other shape of archive the
  files' records can mislead it.

Where the code and its comments disagree, the model follows the code:

* include/pagetab.h:100 says that all physical memory is mapped at its address plus `VIRT_OFFSET`. The
  loop that would do it is commented out (sys/pagetab.c:81-96); `KernelMemory.Kernel.SetupPageTables`
  shows what is mapped instead.
* `mmap` does not clear new tables (sys/pagetab.c:163, 175 and 187). A page table that is not cleared is
  right if and only if no word of its frame, but the one written, has bit 0 set
  (`AddressSpace.UnclearedMapping`); otherwise a page is mapped that no one asked for
  (`AddressSpace.StrayPage`). For tables of any level, all translations stay as they were if and only if
  no walk through what the frame holds ends at a page (`AddressSpace.UnclearedTable`). Above the page
  tables a stale entry that does not mask to 0 is also taken for a table that is there, and `mmap`
  faults in its next access when bit 0 of it is clear (`KernelMemory.StaleEntry`).
  `MemoryState.AllBlank` therefore says that every page still to be handed out by `kmalloc_mem` holds
  only words with bit 0 clear that mask to 0; nothing frees pages, so it is kept. Only `mmap` and the
  heap ask for it: `getPT` and `setup_page_tables` clear their pages, and hold for any contents of
  memory.
* `setup_page_tables` enters the whole kernel range in the page table of its first page
  (sys/pagetab.c:43), so it maps what is intended if and only if the range lies in one 2 MB region.
* The skip of `readTarfile` (sys/tarfs.c:27) is too short for some sizes, 1025 bytes the first.
  `Tar.SkipExact` gives the exact condition for a size, and `Tar.SkipsOkIsNeeded` shows that the
  condition on an archive is needed for each name: without it, some contents of the files (or of the
  unused end of a last record) are taken for a header. A name that fills its 100 bytes is missed
  (`Tar.LongNameIsMissed`).

## Model

| member | source | states |
|---|---|---|
| Paging.TableAddresses | include/pagetab.h:61-77 | the four recursive base addresses, as numbers |
| Paging.IndexMeaning | sys/pagetab.c:11-29 | the index functions yield the four nine-bit digits of the page number |
| Paging.FlagsAreAdded | include/pagetab.h:6-8 | or-ing PR, RW and US to an aligned address adds 7 |
| Paging.EntryAddress | sys/pagetab.c:159 | masking an entry with PAGE_ALIGN gives the address it holds, and 0 for an empty entry |
| Paging.AlignDown | include/pagetab.h:106-108 | the two masks round down to 4 KB and to 256 MB |
| Paging.PdpBaseIs | include/pagetab.h:78 | the PDP macro names the page of the recursive region at the PML4 index of the address |
| Paging.PdBaseIs | include/pagetab.h:79 | the PD macro names the page at the upper two indices |
| Paging.PtBaseIs | include/pagetab.h:80 | the PT macro names the page at the upper three indices |
| Paging.ViaPml4 | include/pagetab.h:77 | with slot 510 in place, word j behind the PML4 base is word j of the top table |
| Paging.ViaPdp | include/pagetab.h:78 | word j behind the PDP base is word j of what the top-table entry addresses |
| Paging.ViaPd | include/pagetab.h:79 | word j behind the PD base is word j of what the PDP entry addresses |
| Paging.ViaPt | include/pagetab.h:80 | word j behind the PT base is word j of what the PD entry addresses |
| Paging.RecursiveSelfMap | include/pagetab.h:53-80 | for every address, the recursive bases translate exactly to the tables that the ordinary walk reaches, faults included, unless an entry maps a large page |
| AddressSpace.WalkMeaning | include/pagetab.h:17-35 | the hardware walk over memory that encodes a tree reaches exactly the nodes of the tree, at their frames, writable and for users |
| AddressSpace.AddNode | sys/pagetab.c:176 | writing one entry adds exactly one node to the tree and keeps slot 510 |
| AddressSpace.UnclearedTable | sys/pagetab.c:162-164 | installing a frame as a table without clearing it leaves all translations outside slot 510 as they were if and only if no walk through the frame ends at a page |
| AddressSpace.UnclearedPageTable | sys/pagetab.c:186-188 | for a page table: if and only if no word of the frame has bit 0 set |
| AddressSpace.UnclearedMapping | sys/pagetab.c:184-193 | mmap with a page table that is not cleared maps its page and nothing else if and only if no other word of the frame has bit 0 set |
| AddressSpace.StrayPage | sys/pagetab.c:184-193 | otherwise that word maps its page of the region, to the frame it names, though no one asked for it |
| AddressSpace.TranslateMeaning | include/pagetab.h:17-35 | an address outside slot 510 translates exactly if its page is in the tree |
| AddressSpace.EnoughMeaning | sys/pagetab.c:158-192 | a mapping can be made if and only if there is a free frame for each missing table |
| AddressSpace.MapMeaning | sys/pagetab.c:156-196 | a mapping changes no other page and no table that was there, and uses the frames in order |
| AddressSpace.OneParent | sys/pagetab.c:156-196 | leaving slot 510 aside, exactly one entry addresses a table below the top one, and none the top table |
| FrameBitmap.MarkMeaning | sys/pmap.c:125 | setting a bit marks one page and no other |
| FrameBitmap.ClearMeaning | sys/pmap.c:100 | clearing a bit frees one page and no other |
| FrameBitmap.PassesMeaning | sys/pmap.c:123 | the allocators' test passes exactly if the page and all later pages of its byte are free |
| FrameBitmap.PreScan | sys/pmap.c:119-120 | the pre-scan stops at the first byte that is not full, its index starting as a page number |
| FrameBitmap.Scan | sys/pmap.c:121-130 | the search returns the first page that passes the test, or nothing if none does |
| FrameBitmap.PickMeaning | sys/pmap.c:119-130 | pre-scan and search together, without their functions: the first page that is free to the end of its byte, from the first byte that is not 255 on |
| FrameBitmap.TakeMeaning | sys/pmap.c:117-132 | an allocation marks exactly the page it returns, which was free, and no page passes the test that did not before |
| FrameBitmap.PickGrows | sys/pmap.c:117-132 | after a page was returned, a later search from the same place returns a larger page or none |
| AllocatorRuns.PageWasFree | sys/pmap.c:117-132 | in any run, the page a call returns was free at the start and is in use afterwards |
| AllocatorRuns.NoDoubleAllocation | sys/pmap.c:117-222 | in any interleaving of the two allocators no page is returned twice, and the pages of one allocator increase |
| AllocatorRuns.AlwaysInside | sys/pmap.c:120 | if one byte from 1024 on is not full, no run ever scans past the bitmap |
| AllocatorRuns.SupplyIncreases | sys/pmap.c:117-132 | the pages of successive kmalloc_mem calls increase, lie in 528..8191 and were free |
| AllocatorRuns.ContiguousPick | sys/pmap.c:117-132 | if page n and all later ones are free and those before it in use, kmalloc_mem returns page n, and NULL at the end |
| AllocatorRuns.ExactTrace | sys/pmap.c:117-132 | from such a state the i-th call returns page n + i until 8191, and NULL after that |
| AllocatorRuns.MallocSupply | sys/pmap.c:117-222 | malloc_mem takes the page that kmalloc_mem would have returned next, or one that it never returns; the later kmalloc_mem calls return the same pages otherwise |
| AllocatorRuns.TakenSupply | sys/pmap.c:117-132 | after n calls of kmalloc_mem the pages to come are the others, in order |
| Pmap.PublishMeaning | sys/pmap.c:87-103 | after set_kernel_in_freelist a page of the range is in use exactly if its address lies between the two bounds, both included; others are as before |
| Pmap.BootIsExact | sys/pmap.c:60-103 | after boot a page is free if and only if some region covers it and its address lies below the kernel base or above the end of the bitmap |
| Pmap.CoversMeaning | sys/pmap.c:89-92 | which pages a region covers, in addresses: its first page wholly, its last only if it is complete |
| Pmap.BootIsOrderIndependent | sys/main.c:26-35 | the bitmap depends only on which pages the regions cover, not on their order or overlaps |
| Pmap.KernelIsSafe | sys/pmap.c:75-103 | no free page overlaps the kernel image or the bitmap, for any regions, if and only if the kernel base is page aligned (or lies beyond the bitmap) |
| Pmap.OverlapsMeaning | sys/pmap.c:75-85 | a page overlaps a range exactly if a byte of the range lies on it |
| Pmap.FreeList.InitFreelist | sys/pmap.c:60-73 | 8192 bytes, all 255, and the reserved range extended by them |
| Pmap.FreeList.SetKernelInFreelist | sys/pmap.c:87-103 | the loop computes Publish, in place: in the range, exactly the pages with an address between the bounds are in use |
| Pmap.FreeList.KmallocMem | sys/pmap.c:117-132 | the loops compute Pick and Take from page 528, in place: the page returned is the first that passes the test, from the number of the first byte on that is not 255 at or after byte 528 |
| Pmap.FreeList.MallocMem | sys/pmap.c:206-222 | the same from page and byte 0 |
| Pmap.FreeList.Search | sys/pmap.c:117-132 | the body that the two allocators share |
| Pmap.FreeList.PerformAll | sys/pmap.c:117-222 | any calls of the two allocators go through the run that AllocatorRuns speaks of |
| Pmap.FreeList.Allocate | sys/pmap.c:117-222 | no address but 0 is returned twice, and each is that of a page below 8192 that was free at the start |
| MemoryState.TakeKeepsCore | sys/pmap.c:117-132 | an allocated page is no table and no mapped page, is blank if the free pages are, and all invariants of memory hold on |
| MemoryState.TakenCanLink | sys/pagetab.c:160-164 | the page that mmap takes for a missing table meets the conditions under which the results on uncleared tables hold |
| MemoryState.MemsetKeepsCore | sys/pagetab.c:124 | clearing the page that is allocated next, whatever it held, makes it blank and changes no table |
| MemoryState.InstallTable | sys/pagetab.c:173-180 | allocating a page of dead words and writing it into a table adds a table to the tree and keeps all invariants |
| MemoryState.InstallPage | sys/pagetab.c:193 | the last statement of mmap maps the page and keeps all invariants |
| MemoryState.StoreKeepsCore | sys/process.c:107-118 | a store into a mapped page leaves the tree and the blank pages alone |
| MemoryState.MallocKeepsCore | sys/pmap.c:206-222 | what malloc_mem does to the bitmap keeps the tree, the blank pages and the separation of pages and tables |
| MemoryState.MallocTakes | sys/pmap.c:206-222 | the page of malloc_mem was free, is in use now, is no table and will not be handed out by kmalloc_mem |
| MemoryState.TakenIsMappable | sys/pmap.c:168-169 | the page that kmalloc_mem returns may be mapped |
| KernelMemory.EntryOf | sys/pagetab.c:159 | a masked table entry is the address of the child table, or 0 exactly if there is none |
| KernelMemory.PdpEntry | sys/pagetab.c:159 | the address that mmap uses for the PML4 entry translates to that entry |
| KernelMemory.PdEntry | sys/pagetab.c:171 | the address that mmap uses for the PDP entry translates to that entry once the PDP exists |
| KernelMemory.PtEntry | sys/pagetab.c:183 | the address that mmap uses for the PD entry translates to that entry once the PD exists |
| KernelMemory.PageEntry | sys/pagetab.c:193 | the address that mmap uses for the page's entry translates to that entry once the PT exists |
| KernelMemory.StaleEntry | sys/pagetab.c:171-193 | after a table above was installed uncleared, mmap's next access goes to a new page if the entry there masks to 0, else where the stale entry says, and faults if its bit 0 is clear |
| KernelMemory.TranslateAfterMap | sys/pagetab.c:156-196 | for the hardware, a mapping is the update of one page |
| KernelMemory.Kernel.EnsureTable | sys/pagetab.c:158-168 | one block of mmap: the table is present afterwards, with the next free frame if it was missing |
| KernelMemory.Kernel.InstallNewPage | sys/pagetab.c:160-168 | the body of that block |
| KernelMemory.Kernel.NextPage | sys/pagetab.c:162 | kmalloc_mem returns the next page of the supply |
| KernelMemory.Kernel.EnsureTables | sys/pagetab.c:158-192 | the three blocks, each through its recursive address |
| KernelMemory.Kernel.SetPage | sys/pagetab.c:193 | the entry of the page is set, and nothing else changes |
| KernelMemory.Kernel.Mmap | sys/pagetab.c:156-196 | afterwards the page translates to the frame with all rights, every other page outside slot 510 as before, and tables, pages and free frames are still apart |
| KernelMemory.Kernel.GetTable | sys/pagetab.c:120-129 | one block of getPT, from any contents of memory: returns the table, made and cleared if it was missing |
| KernelMemory.Kernel.NewTable | sys/pagetab.c:123-127 | the body of that block |
| KernelMemory.Kernel.GetPT | sys/pagetab.c:114-154 | from any contents of memory, returns the page table of the address with all tables above it present, and maps nothing |
| KernelMemory.Kernel.MapDirect | sys/pagetab.c:45-55 | the loop enters each frame of the range, its end included, in the one page table it is given |
| KernelMemory.Kernel.MapRange | sys/pagetab.c:45-55 | the same from any address of the first page, and which frames may still be mapped |
| KernelMemory.Kernel.MakeTopTable | sys/pagetab.c:34-35 | the top table is the first page of the supply, empty whatever it held |
| KernelMemory.Kernel.BuildMap | sys/pagetab.c:41-55 | the tables of the range's first page, then its loop |
| KernelMemory.Kernel.SwitchOn | sys/pagetab.c:100-104 | slot 510 and CR3 name the top table, and the tree is as before |
| KernelMemory.Kernel.BuildBoth | sys/pagetab.c:33-76 | both ranges are entered, page 0xB8 at its place, how many tables that took, and that the space is the intended one if and only if the kernel range lies in one 2 MB region |
| KernelMemory.Kernel.SetupPageTables | sys/pagetab.c:31-112 | from any contents of memory, in numbers: 0xFFFFFFFF800B8000 translates to frame 0xB8; if the kernel range lies in one 2 MB region (and only then is the space the intended one) an address outside slot 510 translates exactly if it is VIRT_OFFSET plus a page of the range or page 0xB8, to that page, and else the page behind the first region faults; the result is the recursive address of the top table |
| KernelMemory.Kernel.Poke | sys/process.c:107-118 | a store through a mapped address, outside slot 510, the kernel image and the bitmap, is read back there, changes no other word of memory, and leaves tables, translations and the allocator alone |
| KernelMemory.BitmapIsExcluded | sys/pmap.c:65 | the condition on such a store shuts out every address that is mapped to a byte of the kernel image or the bitmap |
| KernelMemory.KernelIsExcluded | sys/pmap.c:60-73 | and exactly the pages with such a byte |
| KernelMemory.BitmapIsMapped | sys/pmap.c:233-236 | boot maps each byte of the bitmap where remap_bitmap moves the pointer to, on a page that the condition shuts out |
| KernelMemory.Kernel.MapNewPage | sys/pmap.c:168-169 | kmalloc_mem then mmap: the page is backed by the next frame |
| KernelMemory.Kernel.TakeFrame | sys/pmap.c:168 | the frame it takes is apart from all tables and mapped pages |
| KernelMemory.Kernel.KmallocPage | sys/pmap.c:135-146 | maps one page at the break, advances it, and returns the page's address |
| KernelMemory.Kernel.Kmalloc | sys/pmap.c:150-174 | maps size/4096 + 1 pages at the break and returns the address of the first |
| KernelMemory.Kernel.Malloc | sys/pmap.c:225-231 | malloc returns one page that was free and is no table, keeps all that the heap needs, and takes the heap's next frame or none |
| KernelMemory.Kernel.ServeOne | sys/pmap.c:135-231 | a request is the call of a run: heap state, bitmap and address are those of the call |
| KernelMemory.Kernel.ServeNext | sys/pmap.c:135-231 | request i leads from the state before call i to the state before call i + 1, and returns what call i returns |
| KernelMemory.Kernel.ServeAll | sys/pmap.c:135-231 | the same for all requests, one after the other |
| KernelMemory.Kernel.Serve | sys/pmap.c:135-231 | any requests of kmalloc, kmalloc_page and malloc: the kernel ends in the state after the calls with the sizes asked for, and the i-th address is that of the i-th region |
| KernelMemory.Kernel.TakeAny | sys/pmap.c:206-222 | the call of malloc_mem in a running kernel |
| KernelMemory.TablesAreOwned | sys/pagetab.c:114-196 | in every state the methods keep, a table is marked in use, is no other table and no mapped page, and has exactly one parent entry |
| Boot.DirectAddress | sys/pagetab.c:45-52 | (kernmem & VIRT_BASE) or-ed with p is VIRT_OFFSET plus p |
| Boot.DirectMapMeaning | sys/pagetab.c:50-55 | the pages the loop adds to one page table, the last frame entered at each winning |
| Boot.EnteredInRegion | sys/pagetab.c:50-55 | inside one 2 MB region each frame is entered at its own page |
| Boot.CountMeaning | sys/pagetab.c:50-55 | the loop with its inclusive bound runs once for each page counted |
| Boot.ExactAfterBoth | sys/pagetab.c:31-76 | both ranges on an empty tree, from four or five tables: page 0xB8 in any case, and exactly the intended pages if and only if the kernel range lies in one region |
| Boot.ExactTranslation | sys/pagetab.c:31-112 | what the hardware makes of that space, in addresses: the pages of the range, its end included, and page 0xB8 |
| Boot.VideoTranslation | sys/pagetab.c:60-76 | 0xFFFFFFFF800B8000 translates to frame 0xB8 |
| Boot.PastRegionFaults | sys/pagetab.c:43-55 | if the range crosses a region, the address behind the first region faults |
| Heap.HeapAddress | sys/pmap.c:162 | heap pages follow one another from VIRT_OFFSET on, canonical and outside slot 510 |
| Heap.GrowMeaning | sys/pmap.c:161-171 | n pages move the break by n pages and use up at least n frames, from the front |
| Heap.GrowMaps | sys/pmap.c:161-171 | each heap page is backed by its frame, and every page outside the new range is as before |
| Heap.FramesDiffer | sys/pmap.c:161-171 | different heap pages have different frames |
| Heap.MappedOnce | sys/pmap.c:161-171 | a heap frame is mapped by its heap page alone, not by the boot mapping nor by another heap page |
| Heap.GrowCost | sys/pmap.c:157-171 | n pages use up n frames and one for each table that was missing |
| Heap.EnoughFrames | sys/pmap.c:157-171 | the frames are enough for n pages if and only if there is one for each page and one for each missing table |
| HeapRuns.AfterIsGrow | sys/pmap.c:135-174 | without malloc, a run of calls is one growth of the heap |
| HeapRuns.EnoughForRun | sys/pmap.c:135-231 | a run of kmalloc, kmalloc_page and malloc can be made if and only if there is a frame for each heap page and each missing table and for those that malloc takes; it uses up just these |
| HeapRuns.CanServe | sys/pmap.c:135-231 | four frames for each page and one for each malloc are enough for any requests |
| HeapRuns.RegionsStayMapped | sys/pmap.c:135-231 | after any run, every byte of every earlier region translates to the frame its page got from its call, which no later call changes |
| HeapRuns.RegionsAreDisjoint | sys/pmap.c:135-231 | bytes of different calls lie on different pages and are backed by different frames |
| HeapRuns.MappedOnce | sys/pmap.c:135-231 | whatever the run, the frame of a heap page is mapped by that page alone |
| HeapRuns.MallocIsApart | sys/pmap.c:225-231 | a page that malloc takes from the heap's frames backs no heap page, earlier or later |
| Main.BootIsContiguous | sys/main.c:26-35 | with usable memory from the kernel to past page 8191, the i-th kmalloc_mem after boot returns page max(528, K + 1) + i, to 8191 |
| Main.BootMapIsExact | sys/main.c:26-35 | for the loader's memory map, in addresses: after boot a page is free if and only if an entry of type 1 covers it and it starts below the kernel or above the bitmap of 8192 bytes |
| Main.PublishAll | sys/main.c:26-35 | the loop over the memory map leaves the bitmap that the map defines |
| Main.Start | sys/main.c:17-39 | boot ends with the break behind the bitmap and, if and only if kernel and bitmap lie in one 2 MB region, with the exact address space; if the free pages are blank, the heap is ready for use |
| Main.FramesIncrease | sys/pmap.c:117-132 | the heap of a running kernel takes frames in increasing order |
| Main.FramesAreFresh | sys/pmap.c:117-132 | no table and no mapped page of a running kernel has a frame still to be handed out |
| Main.AllocationsLast | sys/pmap.c:135-174 | a running kernel that serves any requests maps, when it is done, every byte asked for at the address returned, writable and outside the kernel, and bytes of different requests on different pages in different frames |
| Main.AllMapped | sys/pmap.c:135-231 | the first part, for any kernel that has served requests |
| Main.AllApart | sys/pmap.c:135-231 | the second part |
| Main.AskedAtMeaning | sys/pmap.c:135-231 | which bytes a request asks for: size bytes, or 4096, from the address returned |
| Main.RegionTranslates | sys/pmap.c:135-231 | in between, every byte of the pages of an earlier call translates to the frame that call gave it |
| Main.HeapIsOutsideKernel | sys/pmap.c:150-174 | every byte of every region may be stored to: its frame holds no part of the kernel image or the bitmap |
| ContextSwitch.PushAllMeaning | sys/isr.s:62-75 | where each pushed register lies, and that nothing else is written |
| ContextSwitch.PopAllMeaning | sys/isr.s:77-90 | which word each popped register gets |
| ContextSwitch.SuspendMeaning | sys/isr.s:61-76 | the nineteen words that a switch leaves at the saved rsp hold the whole task, and only twenty words are written |
| ContextSwitch.FrameLayout | sys/isr.s:61-76 | which word below the aligned stack pointer holds which register, one by one |
| ContextSwitch.ResumeMeaning | sys/isr.s:77-92 | resuming such words restores all registers, whatever they held before |
| ContextSwitch.RestoreLayout | sys/isr.s:77-92 | which word each register is restored from, one by one |
| Tasks.FreshIsSuspended | sys/process.c:107-118 | init_process leaves the layout that the stub leaves, with rip at the function, inside the task's stack |
| Tasks.FreshFrame | sys/process.c:109-115 | the five words, as numbers |
| Sequences.RotateKeeps | sys/process.c:60-68 | rotation keeps the same tasks, each once |
| Tasks.SwitchWrites | sys/isr.s:61-76 | a switch changes twenty words of the leaving task's stack and no other memory |
| Tasks.RunRefines | sys/process.c:80-105 | a task that stays inside its own memory changes its own virtual processor only |
| Tasks.AllowedMeaning | sys/process.c:80-140 | what is asked of tasks, in numbers: room for twenty words on the own stack, the other stacks left alone, a stack of its own for a new task |
| Tasks.NewTaskRefines | sys/process.c:120-140 | a new task is a new virtual processor and disturbs no other |
| Tasks.InterruptRefines | sys/process.c:42-78 | a switch changes no virtual processor |
| TaskRuns.RefinesForever | sys/process.c:42-78 | over any run of work, switches and new tasks the machine implements one virtual processor a task |
| TaskRuns.ResumesUnchanged | sys/process.c:42-78 | a task's next turn finds the registers of its last int 0x80, and every word of its 4096 from rsp, aligned down to 16 bytes, on, whatever ran between |
| TaskRuns.IdleMeaning | sys/process.c:42-78 | what runs in between: a task is idle exactly if another one is current whenever code runs |
| TaskRuns.FirstSwitchStarts | sys/process.c:12-40 | first_switch gives the processor to the first task with the registers of its frame, and establishes the refinement |
| TaskRuns.AddAllMeaning | sys/process.c:120-140 | tasks added to an empty list are suspended frames in the order of adding, each entering its function |
| TaskRuns.RunsFromSetup | sys/process.c:168-178 | from any memory, adding tasks and first_switch start a machine all of whose runs refine the virtual processors |
| TaskRuns.ReadyAfter | sys/process.c:60-68 | without new tasks the list is rotated once a switch |
| TaskRuns.EachTurnOnce | sys/process.c:60-68 | in any n consecutive turns each of n tasks is current exactly once |
| Scheduler.Machine.constructor | sys/process.c:8 | a machine without tasks shows a system with an empty list |
| Scheduler.Machine.EnterInterrupt | sys/process.c:85 | what int 0x80 pushes, below rsp aligned to 16 bytes |
| Scheduler.Machine.SaveRegisters | sys/isr.s:62-75 | the fourteen pushes compute PushAll |
| Scheduler.Machine.RestoreRegisters | sys/isr.s:77-90 | the fourteen pops compute PopAll |
| Scheduler.Machine.ReturnFromInterrupt | sys/isr.s:92 | iretq loads rip, cs, rflags, rsp and ss |
| Scheduler.Machine.EnterStub | sys/isr.s:19-76 | interrupt and stub up to the call leave memory and rsp as Suspend says |
| Scheduler.Machine.LeaveStub | sys/isr.s:77-92 | the stub after the call leaves the registers as Resume says |
| Scheduler.Machine.FindTail | sys/process.c:60-64 | the loop ends at the last task of the NULL-ended list |
| Scheduler.Machine.Rotate | sys/process.c:60-68 | through a temporary cycle, the links of the list become those of its left rotation, for one task or more |
| Scheduler.Machine.Schedule | sys/process.c:42-78 | stores rsp in the leaving task, rotates, and loads the rsp of the next; rip1 is the return address |
| Scheduler.Machine.Interrupt | sys/isr.s:19-92 | interrupt, stub and schedule together take a machine that shows a system to one that shows the switched system |
| Scheduler.Machine.TakeInterrupt | sys/isr.s:19-92 | the same on a machine that implements virtual processors: it still does, and none has changed |
| Scheduler.Machine.FirstSwitch | sys/process.c:12-40 | the machine shows the system after first_switch |
| Scheduler.Machine.InitProcess | sys/process.c:107-118 | a new task is a suspended frame at its rsp that enters its function; the five words of its stack that are written, as numbers, and no others |
| Scheduler.Machine.AddProcToTaskList | sys/process.c:120-140 | the list gains the new task at its tail, also when it was empty, and stays NULL-ended |
| Scheduler.Machine.AddTask | sys/process.c:120-140 | the same on a machine that implements virtual processors: it gains one |
| Scheduler.Machine.StartTasks | sys/process.c:12-40 | first_switch on a list of suspended frames starts one virtual processor a task, the first one running |
| Scheduler.Machine.AddAll | sys/process.c:168-174 | adding tasks to an empty list, one after the other |
| Scheduler.Machine.SetupProcesses | sys/process.c:168-178 | from an empty list, adding tasks and first_switch start the first task's function and one virtual processor a task |
| Scheduler.Machine.RunFromSetup | sys/process.c:42-178 | and any run from there implements the virtual processors |
| Scheduler.Machine.Execute | sys/process.c:42-140 | over any run of work, switches and new tasks, this machine of links and stacks implements the virtual processors |
| TaskStructs.StacksApart | sys/process.c:122 | a struct of 32848 bytes holds three words, the stack array and seven words; the arrays of structs from different kmalloc calls are apart from each other |
| TaskStructs.HeapTasksRefine | sys/process.c:120-178 | tasks whose structs come from kmalloc, among any other calls, run as virtual processors |
| Rings.InitListHead | include/linux/list.h:27-31 | a ring of the head alone |
| Rings.ListHead.constructor | include/linux/list.h:22-25 | a new head is an empty list |
| Rings.ListAddBetween | include/linux/list.h:40-48 | insertion between two neighbours |
| Rings.ListAdd | include/linux/list.h:63-66 | insertion as the first entry |
| Rings.ListAddTail | include/linux/list.h:77-80 | insertion as the last entry |
| Rings.ListDelEntry | include/linux/list.h:89-105 | the node is unlinked from its ring, also if it is alone |
| Rings.ListDel | include/linux/list.h:107-112 | the ring without the node, whose own links are dead |
| Rings.ListDelInit | include/linux/list.h:145-149 | the ring without the node, which is a ring of its own |
| Rings.ListReplace | include/linux/list.h:125-132 | the new node takes the place of the old, also of an empty head |
| Rings.ListReplaceInit | include/linux/list.h:134-139 | the same, and the old node is a ring of its own |
| Rings.ListMove | include/linux/list.h:156-160 | the node goes from its ring to the front of the same or another list |
| Rings.ListMoveTail | include/linux/list.h:167-172 | the node goes to the end of the same or another list |
| Rings.ListEmpty | include/linux/list.h:189-192 | true exactly for a head alone |
| Rings.ListIsSingular | include/linux/list.h:231-234 | true exactly for one entry |
| Rings.ListRotateLeft | include/linux/list.h:217-225 | the first entry becomes the last |
| Sequences.RotatedMeaning | include/linux/list.h:217-225 | n rotations move the first n entries, in order, behind the others |
| Sequences.FullRotation | include/linux/list.h:217-225 | as many rotations as entries are the identity |
| Rings.CutPosition | include/linux/list.h:236-246 | two well-formed rings: the entries up to the given one, and the rest |
| Rings.ListCutPosition | include/linux/list.h:262-274 | the same at any member; at the head the receiving list is empty, and an empty list is left alone |
| Rings.SpliceBetween | include/linux/list.h:276-288 | the entries of one ring between two neighbours of another |
| Rings.ListSplice | include/linux/list.h:295-300 | the entries go to the front |
| Rings.ListSpliceTail | include/linux/list.h:307-312 | the entries go to the end |
| Rings.ListSpliceInit | include/linux/list.h:321-328 | to the front, and the emptied list is a list again |
| Rings.ListSpliceTailInit | include/linux/list.h:338-345 | to the end, and the emptied list is a list again |
| Rings.CutThenSplice | include/linux/list.h:262-300 | cutting at any member and splicing back restores the ring |
| HashLists.CellHoldsNode | include/linux/list.h:573-661 | the cell that a node of a list points back to holds that node |
| HashLists.HListUnhashed | include/linux/list.h:579-582 | no member of a list is unhashed |
| HashLists.HListEmpty | include/linux/list.h:584-587 | true exactly for the empty list |
| HashLists.HListUnlink | include/linux/list.h:589-596 | the list without the node |
| HashLists.HListDel | include/linux/list.h:598-603 | the list without the node, whose own links are dead |
| HashLists.HListDelInit | include/linux/list.h:605-611 | the list without the node, which is unhashed; an unhashed node is left alone |
| HashLists.HListAddHead | include/linux/list.h:613-621 | insertion at the front |
| HashLists.HListAddBefore | include/linux/list.h:624-631 | insertion before a node |
| HashLists.HListAddAfter | include/linux/list.h:633-642 | insertion after a node |
| HashLists.HListMoveList | include/linux/list.h:654-661 | the new head has the nodes and the old head has none |
| Numbers.NumeralMeaning | sys/write.c:164-173 | the digits denote the number, and the first is not 0 unless the number is |
| Numbers.DigitMeaning | sys/write.c:169-172 | the characters of the sixteen digits |
| Numbers.ValueOfConcat | sys/write.c:164-173 | what digits denote: each character of 0123456789abcdef counts its place there, at its power of the base |
| Numbers.TextMeaning | sys/write.c:139-188 | itoa's text denotes its argument in every base 2..16: sixteen digits in base 16, no leading zero otherwise except for 0 |
| Numbers.WriteDigits | sys/write.c:164-173 | the loop writes the numeral backwards and stays in the buffer |
| Numbers.Pad | sys/write.c:174-175 | the loop pads base 16 to sixteen characters, and no other base |
| Numbers.WriteReversed | sys/write.c:153-175 | both loops write the text backwards |
| Numbers.ReverseInPlace | sys/write.c:181-186 | the swapping loop reverses the characters in place |
| Numbers.Itoa | sys/write.c:139-188 | the buffer holds the text and a NUL, the rest is untouched; an unsupported base gives the empty string and touches one byte |
| Numbers.Atoi | sys/write.c:190-198 | in 32-bit arithmetic, the decimal reading of the string |
| Numbers.ReadingOfConcat | sys/write.c:190-198 | the reading of any string: the sum of the codes less 48, each at its power of ten |
| Numbers.AtoiSafe | sys/write.c:190-198 | on decimal digits no step overflows if and only if the value is at most 2147483599 |
| Numbers.AtoiUndoesItoa | sys/write.c:139-198 | atoi of itoa in base 10 is the number, and fits exactly up to 2147483599 |
| Numbers.PowMeaning | sys/math.c:15-24 | the halving recursion is the power by the size of the exponent |
| Numbers.PowOverflow | sys/math.c:15-24 | some product overflows exactly if the result is out of range |
| Numbers.PowInt | sys/math.c:15-24 | pow in 32-bit arithmetic |
| Numbers.OctalIsSmaller | sys/write.c:200-210 | the octal reading lies between 0 and the number |
| Numbers.OctalOfReading | sys/write.c:200-210 | octal_decimal of atoi of a digit string is its octal value |
| Numbers.OctalOfNegative | sys/write.c:200-210 | a negative number has the negated octal reading |
| Numbers.OctalDecimal | sys/write.c:200-210 | in 32-bit arithmetic, the octal reading of every int |
| Numbers.GetSize | sys/math.c:26-43 | its two loops, in 32-bit arithmetic, compute the value of octal_decimal of atoi |
| Tar.CompareMeaning | sys/math.c:4-12 | strcmp's difference is 0 exactly on equal strings and changes sign with the arguments |
| Tar.CompareAtDifference | sys/math.c:4-12 | behind a common part, the difference of the first characters that differ, the end counting as 0 |
| Tar.Strcmp | sys/math.c:4-12 | the loop returns the difference of the two characters where the strings first differ, or 0 where both end, for strings that end |
| Tar.ReadTarfile | sys/tarfs.c:12-33 | the do-while loop visits the records of Walk and returns its result |
| Tar.SkipExact | sys/tarfs.c:26-29 | the skip meets the next header if and only if (size - 1) % 512 + 1 >= (size - 1) / 512, and is otherwise too short; how far it goes in any case |
| Tar.SkipRange | sys/tarfs.c:26-29 | it is exact up to 1024 bytes, wrong at 1025, and wrong for all sizes above 513 records; 0 or less skips one record |
| Tar.SkipsOkMeaning | sys/tarfs.c:26-29 | which entries the condition is asked of: those that come before the first with the name |
| Tar.HeaderIsRead | sys/tarfs.c:19-20 | of a ustar header the loop reads the name and, at byte 124, the size it was written with |
| Tar.PositionMeaning | sys/tarfs.c:12-33 | Position is the place of the first entry with the name |
| Tar.PositionOfNone | sys/tarfs.c:12-33 | there is none without such an entry, except that a search for the empty name ends at the zeros behind the archive |
| Tar.FindsFirst | sys/tarfs.c:12-33 | the search from any header, in an archive in which the skip is exact for the entries before the first with the name |
| Tar.FindsFirstEntry | sys/tarfs.c:12-33 | on every such archive, the first header with the name, else NULL |
| Tar.LongNameIsMissed | sys/tarfs.c:19-25 | a name of 100 characters, which has no NUL, is found only if its mode field is empty |
| Tar.SkipsOkIsNeeded | sys/tarfs.c:26-29 | for given headers and sizes, the search is right whatever the records of the files hold if and only if the condition holds for the entries before the first with the name |
| Tar.Misleads | sys/tarfs.c:26-29 | where it fails, there is a record of a file that the search returns once it holds the name |
| Tar.EntersData | sys/tarfs.c:26-29 | whenever the condition fails, the next record read is file data, and a search for the string there returns it |
| Tar.DataIsTakenForAHeader | sys/tarfs.c:26-29 | a concrete archive with one file of 1025 bytes in which the search for another name finds its data |

## Left out

- KernelMemory.Kernel.Mmap: has a precondition that there are frames for the missing tables; what `mmap` does when `kmalloc_mem` returns NULL is not modelled.
- KernelMemory.Kernel.GetPT: likewise needs a frame for each missing table.
- KernelMemory.Kernel.Serve: asks for frames for all its requests, as the calls they lead to need them (`HeapRuns.CanServe` bounds them).
- KernelMemory.Kernel.Kmalloc: needs frames for all pages (`HeapRuns.EnoughForRun` counts them), so its count never comes near the 32-bit `num`; the first call after boot maps the page of the break, which boot had mapped already, anew.
- Pmap.FreeList.KmallocMem: requires that the pre-scan finds a byte that is not full inside the bitmap; the source would read on.
- Pmap.FreeList.MallocMem: returns 0 both for page 0 and for NULL, as the source does.
- KernelMemory.Kernel.SetupPageTables: requires a page-aligned base and bounds below 256 MB, as the loader and the linker script supply them; accesses by physical address are direct, which the loader's identity mapping provides.
- Paging.RecursiveSelfMap: large pages are not followed; an entry with bit 7 set faults in the walk.
- Scheduler.Machine.AddProcToTaskList: the address of the new struct is a parameter in place of the call of `kmalloc`; `TaskStructs.StacksApart` says what `kmalloc` gives.
- Scheduler.Machine.Interrupt: rbp is not saved by the stub and not modelled; the compiler's prologue of `schedule` is taken to be empty, and the registers at its final jump are arbitrary.
- Tasks.RunRefines: tasks are assumed to leave the stacks, the task structs and the saved rsp of others alone, and to keep room on their own stack for the twenty words of a switch.
- Rings.ListDel: the poison values are null pointers; so they are in HashLists.HListDel.
- Numbers.Itoa: the branch for negative values is dead for an unsigned argument (sys/write.c:155) and left out.
- Numbers.Atoi: characters are below 128; in C larger ones would be negative.
- Tar.FindsFirstEntry: the size field must end in NUL and its decimal reading must fit `atoi`; a name of 100 characters must be followed by a NUL inside its header record; the do-while reads one header even of an empty archive, so the archive is not empty. The line printed for a file that is found is left out.
- The bitmap is an array beside physical memory; `Pmap.KernelIsSafe` shows that its bytes are never handed out, and `KernelMemory.Kernel.Poke` that stores elsewhere do not reach them. What a store into the bitmap or the kernel image itself does is not modelled. `remap_printf` only rebases a pointer.
- The TLB: the model walks memory on every access, and writing CR3 only names the top table.
- `kmalloc_virtual`: it steps a pointer to 64-bit words by 4096, so it does not map contiguous memory (sys/pmap.c:199).
- `set_page_free` and `set_page_used` (never called), the commented-out `reserve_pages`.
- `load_elf`, `CopyCodeData`, `populateTask` and `find_vma`: raw casts into binary images, and easy list members.
- Console output, the timer, the interrupt controller, descriptor tables, keyboard and its queue: port I/O and one-shot tables.
- The iteration macros, `container_of`, `list_is_last`, `list_empty_careful`, `hlist_add_fake` and the unused address macros at include/pagetab.h:83-86.
