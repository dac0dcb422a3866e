# Knee's memory and process core, verified

This project models the memory and process core of the Knee kernel in Dafny and proves what its
parts promise. Each part is a state machine over mutable structures. Linked lists, page tables and
byte arrays are objects, fields, maps and arrays changed in place; ghost state says what they stand
for.

* **The heap** (`HeapLayout`, `HeapBlock`, `HeapBooks`, `Heap`): malloc, free and realloc over a
  doubly linked list of page blocks, each with an address-ordered, doubly linked list of chunks. The
  ghost `books` hold the block list, the chunk lists, what each client pointer reads as, and the
  pages on loan. Every operation is specified by its effect on them. The answer of the page hook is
  a parameter (`grant`, 0 for no pages), so every answer is covered.
* **Virtual space** (`Extents`): the multimap of free extents, its best-fit allocation, and the
  removal of single pages while booting, with 32-bit wrap-around.
* **Frames, page tables and the ledger** (`PageTables`, `Ledger`, `KernelPages`): the frame bit set,
  two-level tables edited through the window pages, with the rights of users and to write, and the record of kernel mappings, whose own
  storage calls back into the allocator. A panic is a `Fault`; most are proved unreachable. The ghost
  map `owner` takes a page to its frame; `loose` are the frames taken but mapped nowhere; a page is
  *in flight* when it is mapped and its record is still to be written.
* **What allocations take** (`Supply`, `Outcomes`): which frames, pages and slots of the ledger an
  allocation needs, and so whether it succeeds, without the lock, the saved record and the recursion.
* **Booting** (`Booting`): the layout booting leaves, with the text console mapped to the video memory.
* **The heap's pages** (`HeapPages`): the hook over the page allocator, which always answers what the
  heap may be answered and never panics when a block goes back.
* **Processes** (`Processes`): round robin, switching of address spaces, fork by copying pages,
  release before exec. Every step refines a system of processes with private memories.
* **The RAM file and its descriptors** (`RamFile`, `Descriptors`): a page vector with one cursor,
  read and written as a flat byte sequence, and descriptors with offsets of their own on top of it.
* **Paths** (`Paths`): the path printer, the path resolver, and the split into parent and leaf.

A system call or a scheduler tick is one atomic step, interrupts being off.

Things the code does that its names or comments do not suggest:

* A ledger record cannot always be written. With no slot free, the new node's page may need a page
  table of its own; then two records are to be put aside and there is room for one
  (`SaveFails` is the exact condition, `Booting.FullLedgerFails` such a state). The panic "Not flushed"
  is unreachable in every state, and in all other states no record is lost. For a single page saving
  fails exactly when a node is due and the page it would get has no table yet (`Outcomes.OneSaves`).
* The page of the text console is mapped to the video memory, but recorded on another frame; the frame
  of the video memory is recorded on another page (`Booting.ConsoleElsewhere`). Everywhere else records
  and page tables agree.
* A page given back before booting marks the pages in use stays mapped, though page and frame count as
  free (`Booting.EarlyStaysMapped`). Booting leaves a consistent state exactly if there is no such page
  (`Booting.BootOk`).
* Taking the last page of the address space would leave an empty extent at address 0, and no later
  removal would be exact (`Extents.TakeExactIff`, `Extents.TopPageSpoils`). Booting does not take it,
  and every run that leaves it alone is exact (`Extents.TakeAllExact`, `Extents.Boot`).
* The parent of an absolute path with one component is the current directory, not the root
  (`Paths.SingleComponent`, `Paths.SingleComponentFails`).
* lseek relative to the current position moves from the cursor all descriptors share. Over every run
  it is right exactly when the descriptor stands where the last call that moved the cursor ended
  (`Descriptors.SeekCurExact`); two descriptors and one write make it wrong
  (`Descriptors.SeekCurrentFails`).
* lseek from the end subtracts its offset: -1 stands behind the end and 1 before it, the other way round
  than lseek is commonly defined. The model takes this as the meaning of SEEK_END.

## Main results

* Heap: `Heap.Heap.Malloc` down to the block and the address it picks, `Heap.Heap.Free`,
  `Heap.Heap.Realloc` over every run, with
  `Heap.Heap.PayloadSafety`, `Heap.Heap.NoLeak` and `Heap.Heap.Accounting`.
* Virtual space: `Extents.VirtualSpace.Allocate`, `Extents.TakeExactIff`, `Extents.TakeAllExact`,
  `Extents.Boot`.
* Pages: `KernelPages.PageAllocator.AddAllocation` with its exact failure,
  `KernelPages.PageAllocator.AllocatePages` with its exact outcome, what that outcome is
  (`Outcomes.TakeMeans`, `Outcomes.OneSaves`, `Supply.NodesLeast`), `KernelPages.Agreement` of frames,
  tables and records, `Booting.BootOk` and `Booting.Start`.
* Processes: `Processes.Scheduler.Schedule`, `Processes.Scheduler.CopyCurrentProcess` and
  `Processes.Scheduler.ReleaseAll` as steps of private memories, `Processes.Turn`,
  `Processes.NextTurn`, `Processes.FirstTurn`, `Processes.Separation`, `PageTables.Privilege`.
* Files: `RamFile.File.Write`, `RamFile.File.Read`, `Descriptors.SeekCurExact`, `Descriptors.RunsAgree`,
  `Descriptors.ReadBack`, `Descriptors.OpenThenRead`.
* Paths: `Paths.PathRoundTrip`, `Paths.FromParent`, `Paths.DotsUndo`, `Paths.PanicExactly`,
  `Paths.LeafInParent`, `Paths.SingleComponent`.

The other rows below are the steps these rest on.

## Model

| member | source | states |
|---|---|---|
| HeapLayout.AlignRoundTrip | liballoc.c:20-44 | From every start address ALIGN moves 16 to 31 bytes up to a multiple of 16, the distance fits the hidden byte and passes UNALIGN's test, and UNALIGN gives the start back. |
| HeapLayout.PayloadInside | liballoc.c:252-256 | A request padded by 32 holds its hidden byte and its whole payload, whatever the address. |
| HeapLayout.RequestArithmetic | liballoc.c:185-203 | The 32-bit sums formed from a request do not wrap, and the pages asked for hold it, exactly up to 2^32 - 81 bytes. |
| HeapLayout.PagesLeast | liballoc.c:190-203 | At least 16 pages are asked for, and beyond that no more than hold the request with both headers. |
| HeapLayout.GapsComplete | liballoc.c:412-536 | If the front gap, every inner gap and the tail gap are too small, no free range of that size exists anywhere in the block. |
| HeapLayout.ShortageMeansNoRoom | liballoc.c:343-344 | Case 1 skips a block only if it holds no free range large enough. |
| HeapLayout.PlacedInsert | liballoc.c:412-533 | A chunk put between its list neighbours keeps the block's chunks ordered, disjoint and inside, and takes bytes that were free. |
| HeapLayout.ChunksDisjoint | liballoc.c:241-584 | Any two live chunks of the heap lie apart, headers included. |
| HeapLayout.FreeRangeDisjoint | liballoc.c:376-533 | A free range of one block meets no live chunk of any block. |
| HeapBlock.FindGap | liballoc.c:449-536 | The search stops at the first chunk with a large enough gap behind it; if it finds none, the block has no free range of that size. |
| HeapBlock.TryBlock | liballoc.c:376-536 | Places the chunk at the lowest address of the block where it fits and keeps order, links, first and usage; otherwise changes nothing and no address fits. |
| HeapBlock.FirstFitAfter | liballoc.c:449-533 | The first gap found is the lowest free range of the block. |
| HeapBlock.Unlink | liballoc.c:671-683 | Taking a chunk out of the middle, the front or the end keeps order, links both ways, first and usage of the others, and marks it dead. |
| HeapBlock.AnswerFor | liballoc.c:813-818 | Lowering one chunk's requested size keeps every block in order. |
| HeapBooks.Memcpy | liballoc.c:115-138 | The word-then-byte copy equals a byte copy for regions that do not overlap ahead, and changes nothing else. |
| HeapBooks.CopyBytes | liballoc.c:824 | Copied from one payload to another, the first n bytes of the target become those of the source; the rest of it and every other payload stay. |
| HeapBooks.BetMeans | liballoc.c:316-337 | Looking at blocks makes the best bet at least as roomy as it was and as each of them, and changes it only for a roomier one. |
| Heap.Heap.constructor | liballoc.c:88-94 | The heap before its first use satisfies the invariant. |
| Heap.Heap.AllocateNewPage | liballoc.c:185-235 | The block obtained has the pages asked for, no chunk and a usage of one header; without pages only a warning is counted. |
| Heap.Heap.AlignFor | liballoc.c:20-33 | The pointer is the aligned one, and the hidden byte is the distance UNALIGN needs, with every payload elsewhere unchanged. |
| Heap.Heap.Store | liballoc.c:252-256 | A client's store into a payload it was given changes that payload and nothing else, and keeps the heap's invariant. |
| Heap.Heap.Grow | liballoc.c:365-369 | The fresh block goes to the end of the list, or becomes the root. |
| Heap.Heap.PlaceIn | liballoc.c:376-536 | One block's part of malloc: first fit and entered in all the books, or no room and nothing changed. |
| Heap.Heap.Begin | liballoc.c:275-326 | The search starts at the best bet exactly if that has more than the bytes needed free, else at the root, and from there stands at the first place of its order; best bet and size remembered are those there were. |
| Heap.Heap.Hop | liballoc.c:328-372 | A block is left only if it has no room; a fresh block is asked for only when no block has. |
| Heap.Heap.PlaceOrPass | liballoc.c:376-568 | In a block that may have room the chunk is placed, or the search leaves the block with the proof that it has none. |
| Heap.Heap.Visit | liballoc.c:328-568 | One turn of the search places the chunk or leaves a block without room for the next in order, and remembers the block if it is the roomiest yet. |
| Heap.Heap.Malloc | liballoc.c:241-584 | Terminates; returns 0 exactly when no block has room and the hook has no pages; otherwise a pointer not held before, a chunk that is first fit in its block, and every other payload unchanged. The block is the first with room in the order from the best bet on and then from the root, or from the root if the best bet looks too small; a fresh one only if no old one has room. Afterwards the best bet is what the blocks looked at make of it, the fresh one among them unless the last old one lacked the bytes. |
| Heap.Heap.Detach | liballoc.c:671-683 | The list half of free keeps all other chunks and the totals. |
| Heap.Heap.Release | liballoc.c:688-696 | An empty block leaves the list from any position, its pages go back as they were lent, and no best bet points to it. |
| Heap.Heap.Free | liballoc.c:594-717 | Gives back exactly the chunk behind the pointer, keeps every other payload, returns the block if it is now empty, and counts an error and changes nothing for a chunk already freed. |
| Heap.Heap.NextBetMeans | liballoc.c:688-707 | The best bet free leaves is never a block returned; of the old one and a block that stays it is the roomier, the old one if neither is. |
| Heap.Heap.BadMagic | liballoc.c:618-637 | A wrong magic number counts as an error, and as a possible overrun exactly when its lowest byte is right. |
| Heap.Heap.CopyPayload | liballoc.c:824 | The copy of realloc replaces the first bytes of one payload by those of another and touches no third one. |
| Heap.Heap.CopyAndFree | liballoc.c:824-825 | Copying into the new chunk and freeing the old one leaves the copy and every other payload, also when the old block is returned. |
| Heap.Heap.Realloc | liballoc.c:739-828 | Keeps the first min(old, new) bytes and every other payload, also when the old chunk's block is returned on the way; each early exit has exactly its own effect, and an error is counted exactly for a pointer not held. |
| Heap.Heap.PayloadSafety | liballoc.c:20-44 | In every reachable state each payload is 16-aligned, lies in its own chunk behind header and hidden byte, and meets no other chunk. |
| Heap.Heap.NoLeak | liballoc.c:685-696 | When every pointer has been freed, the list is empty, both totals are zero and all pages are back. |
| Heap.Heap.Accounting | liballoc.c:93-94 | The totals equal the live bytes and 4096 times the pages on loan; the pages on loan are exactly those of the blocks. |
| Heap.Heap.ViewKnown | liballoc.c:755-761 | Every pointer a client holds leads free and realloc to its own header. |
| Extents.BestFitSmallest | allocator.cpp:161-166 | upper_bound of count - 1 picks a smallest extent of at least count pages, of these the first, and none only if there is none. |
| Extents.VirtualSpace.Allocate | allocator.cpp:156-172 | Hands out count aligned pages that were free and have never been handed out, removes exactly those, and does not add extents. |
| Extents.PiecesExact | allocator.cpp:400-412 | Cutting a page out leaves disjoint extents with exactly the other pages, also when the end wraps to 0. |
| Extents.TakeExact | allocator.cpp:393-417 | Without an empty extent at address 0 exactly the given page is removed, and the panic comes exactly when it was not free. |
| Extents.TakeExactIff | allocator.cpp:393-417 | For a free page the removal is exact if and only if there is no empty extent at address 0. |
| Extents.TopPageOnly | allocator.cpp:401-402 | Starting without that extent, it arises exactly from taking the last page of the address space. |
| Extents.TopPageSpoils | allocator.cpp:393-417 | At an input: had booting taken the last page first, every other free page would still be accepted, and the removal of none of them would be exact. |
| Extents.TakeAllExact | allocator.cpp:393-417 | Any run of removals of distinct free pages other than the last page removes exactly those, refuses none, and leaves no such extent. |
| Extents.VirtualSpace.Deallocate | allocator.cpp:393-417 | The loop computes the removal for every multimap; without an empty extent at address 0 it removes exactly the page asked for, which is not handed out later, and refuses exactly pages that are not free. |
| Extents.BootValid | allocator.cpp:456-459 | Booting starts from the kernel's half without the table windows. |
| Extents.VirtualSpace.Mark | allocator.cpp:461-466 | A marking loop never panics and removes exactly the pages of its range that are not to be skipped. |
| Extents.Boot | allocator.cpp:456-466 | Both marking loops of booting run without panic, whatever the image size and the pages given back before; exactly the marked pages are no longer free, and no empty extent at address 0 is left. |
| PageTables.NewTable | allocator.cpp:209-227 | Entering a table, whatever its frame holds, into catalog and directory keeps the agreement if and only if the table has no present entry; its window page was not owned. |
| PageTables.NewTableTranslate | allocator.cpp:209-227 | What every page translates to after that: the pages of the new table by its entries, its window page to the table's frame, all others as before. |
| PageTables.Mapped | allocator.cpp:231-239 | Writing one entry with the rights of its half maps exactly that page. |
| PageTables.Unmapped | allocator.cpp:259-269 | Clearing it unmaps exactly that page. |
| PageTables.WindowView | allocator.cpp:204-207 | The entry the kernel finds through the window is the one the processor uses; it is present exactly when the page is owned, and leads to the page's frame or, for an alias, to its target. |
| PageTables.Privilege | allocator.cpp:218-240 | In every reachable state unprivileged code reaches no page of the kernel, and every present page below it to read and to write; the kernel reaches every present page to read and to write, write protection being on. |
| PageTables.WindowWritable | allocator.cpp:212-219 | The kernel can write to every table through its window. |
| Ledger.TableMade | allocator.cpp:209-227 | A fresh table keeps the whole bookkeeping, and its window page is the one mapping in flight. |
| Ledger.PageUnmapped | allocator.cpp:249-270 | Unmapping keeps the bookkeeping; a record left behind is stale. |
| Ledger.FreshFrame | allocator.cpp:350-351 | A page added by any allocation is on a frame that was in no use. |
| Ledger.NotATable | allocator.cpp:210-227 | No page but table windows and the kernel image is on a table's frame. |
| KernelPages.PageAllocator.AllocateFrame | allocator.cpp:131-144 | The lowest free frame, or out of frames exactly when all are used. |
| KernelPages.PageAllocator.Flush | allocator.cpp:178-181 | Outside the lock the saved record is written without needing a page; under the lock it is saved again. |
| KernelPages.PageAllocator.AddAllocation | allocator.cpp:177-199 | "Not flushed" is unreachable. Outside the lock a user page is always recorded, and a kernel page ends exactly as one record does in `Outcomes`: it fails only without frames or pages for a node or, exactly if SaveFails holds, because saving fails. Under the lock it is saved unless one is saved already. Nothing else becomes or stays in flight. |
| KernelPages.PageAllocator.EmplaceLedger | include/linked_page_allocator.h:42-79 | Storing a record takes a node if no slot is free, and ends exactly as one record does in `Outcomes`; both records made meanwhile end up saved or the failure is exactly SaveFails. |
| KernelPages.PageAllocator.TakeNode | include/linked_page_allocator.h:70-78 | Under the lock: out of space exactly if no page is free, failing to save exactly if the page has no table and two frames are clear, else a new node unless no frame is clear. |
| KernelPages.PageAllocator.FrameTable | allocator.cpp:209-225 | A table gets a frame that was free, and its window page is the one mapping in flight; out of frames exactly when all are used. |
| KernelPages.PageAllocator.MakeTable | allocator.cpp:209-227 | A table that was missing is there and recorded; outside the lock the outcome is exactly that of a frame and a record. Under the lock its record is put aside, and the only failure is running out of frames. |
| KernelPages.PageAllocator.EnsureTable | allocator.cpp:204-229 | Afterwards the directory entry is present; the panic about permissions is unreachable, and the missing directory comes exactly for unmarked mappings without a table. With a table there nothing changes and nothing fails; without one the outcome is exactly that of a frame and a record. |
| KernelPages.PageAllocator.MemoryMap | allocator.cpp:201-243 | Maps and records the page, writable and for users exactly if it is below the kernel; "already mapped" exactly when it was; everything mapped before stays. For other pages the outcome is exactly that of a table if it is missing, and of a record for a kernel page. |
| KernelPages.PageAllocator.MapFresh | allocator.cpp:350-351 | Backs a free page with a fresh frame; nested allocations do not disturb it. The outcome is exactly that of a frame, a table if it is missing, and a record; under the lock it succeeds exactly with a table and a clear frame. |
| KernelPages.PageAllocator.MapAll | allocator.cpp:349-352 | The loop backs every page of a range taken out of the free space, though each mapping may allocate tables and nodes of its own; outside the lock the outcome is exactly that of the pages one after the other, under the lock it succeeds exactly with a table and a clear frame. |
| KernelPages.PageAllocator.AllocatePages | allocator.cpp:346-353 | n pages that were free are owned and recorded, nothing is left in flight, all older mappings stay. It ends, outside the lock, exactly as `Outcomes.Take` says: out of space, out of frames, failing to save or success, and with exactly that supply left. |
| KernelPages.PageAllocator.MapUser | allocator.cpp:376-377 | A page the process does not have is added on a fresh frame, with exactly the outcome of a frame and a table if it is missing; one it has is never remapped. |
| KernelPages.PageAllocator.AllocateAt | allocator.cpp:372-380 | Exactly the pages asked for join the process's map, none of which it had; if it has none of them, the outcome is exactly that of the pages one after the other. |
| KernelPages.PageAllocator.MemoryUnmap | allocator.cpp:249-270 | Unmaps exactly one page; each panic exactly when its condition holds. |
| KernelPages.PageAllocator.DeallocateFrame | allocator.cpp:146-154 | Clears a bit that is set, otherwise "Unallocated frame" and nothing changes; the bookkeeping is kept if and only if no page is on the frame. |
| KernelPages.PageAllocator.DeallocateSinglePage | allocator.cpp:321-344 | Record, mapping and frame bit go together; "Unallocated page" exactly when neither the ledger nor the process's map has a record, also when the page's record is the saved one; it succeeds exactly when there is a record that is not stale, and "Unallocated frame" never comes. |
| KernelPages.PageAllocator.DeallocatePages | allocator.cpp:382-386 | Giving a range back succeeds exactly when every page of it has a record that is not stale; then exactly those records and mappings are gone. |
| KernelPages.PageAllocator.KernelPageToFrame | allocator.cpp:439-444 | Of any address: "Unknown page" exactly when the ledger has no record; else the frame the page is on, unless the record is stale. A page that is mapped and recorded is unknown only while its record is the saved one. |
| KernelPages.PageAllocator.UserspaceDisable | allocator.cpp:427-431 | Unmaps exactly the current process's pages; no panic is reachable. |
| KernelPages.PageAllocator.UserspaceEnable | allocator.cpp:433-437 | Maps exactly the process's pages to their frames; fails exactly if a table is missing. |
| KernelPages.MapStep | allocator.cpp:349-352 | Mapping the next page of a range, nested allocations included, touches neither the pages done nor the vacant ones still to do. |
| KernelPages.RecordedOwner | allocator.cpp:174-199 | With nothing in flight, ledger, saved record and process map together are exactly the mappings made. |
| KernelPages.Agreement | allocator.cpp:201-354 | Between calls a frame's bit is set exactly when a record names it or it is kept for a process that waits; no two records share a frame, no record names a kept one; exactly the recorded pages are present, and each is on its recorded frame if and only if it is not an alias of another. |
| Supply.NodesLeast | include/linked_page_allocator.h:42-79 | The nodes taken for k records are the least number in which all of them find a slot, each node holding its own record, too. |
| Outcomes.TakeMeans | allocator.cpp:346-353 | If every free page has a table, n pages can be had exactly if there is an extent for them, a frame and a page for each of them and each node, and else t new tables cost a frame and a record each; with one frame to spare nothing but saving can fail, and that only if a node is needed. |
| Outcomes.OneSaves | allocator.cpp:193-195 | For one page saving fails exactly if its record or its table's finds no slot, the page a node would get has no table, not even the one just made, and two more frames are clear. |
| Outcomes.SinglesMean | process.cpp:92-94 | The same as TakeMeans for n pages taken one at a time. |
| Outcomes.PagesMean | allocator.cpp:372-380 | The same for n pages of a process, whose records need no slots. |
| Booting.BootOk | allocator.cpp:446-468 | For every layout, frames, tables and records agree after booting if and only if no page was given back before the marking loops. |
| Booting.EarlyStaysMapped | allocator.cpp:464-466 | A page given back before them is free and its frame is, but the test a later mapping makes finds it mapped. |
| Booting.ConsoleElsewhere | init.cpp:134-136 | After booting the console's page is recorded on its own frame and mapped to the video memory, and another page is recorded on that. |
| Booting.Start | allocator.cpp:446-468 | Booting with nothing given back leads, for every layout, to an allocator in a consistent state with nothing in flight. |
| Booting.FirstPages | allocator.cpp:346-353 | After any boot n single pages can be had with two frames and two slots for each, though most free pages have no table. |
| Booting.FullBooksOk | allocator.cpp:446-468 | A state after booting with one record still to be written is consistent. |
| Booting.FullLedgerFails | allocator.cpp:193-195 | For every layout that leaves the last table's pages, and every node capacity with which its records fill the nodes, the panic "Failed to save" is reached once only those pages are free. |
| HeapPages.FreshGrant | liballoc_hooks.cpp:22-24 | Pages that were free meet no block of the heap, so the hook's answer is one malloc may be given. |
| HeapPages.Alloc | liballoc_hooks.cpp:22-24 | The hook answers with page-aligned pages apart from every block, never with null; every block stays on recorded pages of its own. It ends exactly as `Outcomes.Take` says, and if every free page has a table it succeeds exactly if an extent, frames and pages suffice. |
| HeapPages.GrownBacked | liballoc_hooks.cpp:22-24 | The block malloc makes of that answer is on recorded pages of its own, like all others. |
| HeapPages.Free | liballoc_hooks.cpp:26-29 | Giving a block's pages back never panics. |
| HeapPages.OthersBacked | liballoc_hooks.cpp:26-29 | It leaves every other block on its pages. |
| Processes.Turn | process.cpp:196-199 | Over every run a process at position i moves up one place per tick, becomes current with the i-th tick, and has then exactly the memory it had, however many processes are made meanwhile. |
| Processes.NotBefore | process.cpp:196-199 | With fewer ticks another process is current. |
| Processes.AroundOnce | process.cpp:196-199 | Over every run a process stopped is at its next turn as it was. |
| Processes.NextTurn | process.cpp:196-199 | What a process writes, gains or gives back is exactly what it finds changed at its next turn, whatever ran between. |
| Processes.FirstTurn | process.cpp:54-105 | A process made has its first turn after one tick for each of the others, with its parent's memory at the fork if forked, with none if created. |
| Processes.IdsStayUnique | process.cpp:20-23 | Over every run ids are unique, and every id handed out later exceeds every earlier one. |
| Processes.FrontJoins | allocator.cpp:427-431 | After switching off, the frames kept for processes are exactly those in their maps, each in one map. |
| Processes.FrontLeaves | allocator.cpp:433-437 | The same for the others after switching on. |
| Processes.WaitingGains | process.cpp:94-98 | A copied page's frame belongs to the child alone. |
| Processes.StacksMore | process.cpp:85-86 | The page taken for a new interrupt stack was free, so it is no other process's stack, and the stacks of all processes stay recorded pages of their own. |
| Processes.Separation | process.cpp:88-100 | In every reachable state no frame is in two processes' maps, all their frames are marked used, the pages present below the kernel are exactly the current process's on its recorded frames, unprivileged code reaches exactly these, and every used frame is somebody's. |
| Processes.Scheduler.constructor | process.cpp:231-236 | The root task alone, with no pages, satisfies the invariant. |
| Processes.RootAlone | process.cpp:231-236 | Every boot leads to a system in which the invariant of allocator and scheduler together holds, with an interrupt stack taken for the root task. |
| Processes.Scheduler.Schedule | process.cpp:164-204 | Never panics: the order, the directories and the entries are always as the switch needs them. Rotates the processes, saves the context, resumes the next one's, and leaves every memory as it was. |
| Processes.Scheduler.CreateProcess | process.cpp:20-52 | Appends a process with the next id, segments of ring 0 or ring 3 by privilege, all else as the record is first filled in, no memory, and an interrupt stack on a page that was free and is recorded now. It fails exactly as taking one page does; if every free page has a table, it succeeds exactly if frames and pages suffice. |
| Processes.Scheduler.MapCopy | process.cpp:92-98 | The temporary page is a kernel page nobody had, on a frame nobody had; reading the page to copy leads to its frame, writing to the temporary page to the frame looked up for the child; it fails exactly as taking one page does. |
| Processes.Scheduler.CopyOut | process.cpp:93-98 | The frame has the bytes of the page copied, the temporary mapping is gone again, and what it took is not given back. |
| Processes.Scheduler.CopyPage | process.cpp:92-100 | The last process gains one page with the bytes of the current process's, on a frame nobody had; it fails exactly as taking one page does. |
| Processes.Scheduler.CopyPages | process.cpp:92-100 | The last process gets a copy of every page of the current one; it fails exactly as taking as many pages one at a time does. |
| Processes.Scheduler.StartChild | process.cpp:54-88 | The child's record is the parent's but for the next id, the context, errno, an empty memory and an interrupt stack of its own, on a page that was free and is recorded now; the parent's list of children gains it; outside ring 0 it fails exactly as taking one page does. |
| Processes.Scheduler.CopyCurrentProcess | process.cpp:54-105 | Appends a child with the next id, the parent's other fields, descriptors among them, an interrupt stack of its own on a page that was free, and a memory equal to the parent's, and enters it in the parent's list; no other memory changes. Outside ring 0 fork ends exactly as taking m + 1 pages one at a time does, m being the parent's pages; if every free page has a table, it succeeds exactly if frames, pages and slots suffice for that. |
| Processes.Scheduler.UserWrite | allocator.cpp:433-437 | A byte written through the walk for users and writes changes that byte of the current process and nothing of any other; it succeeds exactly on the process's own pages, and on none of the kernel's. |
| Processes.Scheduler.UserRead | allocator.cpp:433-437 | A byte read through the walk for users is exactly that of the process's own memory; no page of the kernel can be read. |
| Processes.Scheduler.AllocateUser | allocator.cpp:372-380 | Adds exactly the pages asked for to the current memory and changes no other; if the process has none of them, it ends exactly as those pages one after the other do, and succeeds, if every free page has a table, exactly if there is a frame for each page, each new table and each node. |
| Processes.Scheduler.ReleaseAll | elf.cpp:37-43 | Empties the current memory, never panics, and changes no other. |
| RamFile.File.EnsurePage | ram_fs.cpp:15-16 | A page is appended only when missing, and what was there stays. |
| RamFile.File.WriteFirst | ram_fs.cpp:13-26 | The piece up to the end of the cursor's page is laid over the old bytes; the rest begins at a page. |
| RamFile.File.WritePages | ram_fs.cpp:33-46 | The loop lays the rest over the pages that follow, adding pages as needed, and no other byte changes. |
| RamFile.File.Write | ram_fs.cpp:12-52 | With the cursor at most at the end, the contents become the old ones with the data laid over them from the cursor on, across any page boundaries; existing pages stay. |
| RamFile.File.ReadFirst | ram_fs.cpp:55-70 | The first piece of a read is the bytes from the cursor to the end of its page or of the count. |
| RamFile.FirstPieceFits | ram_fs.cpp:60-66 | In 32-bit numbers, the first piece of a read stays within the page exactly if the cursor is not past the end of the file, or is in the last page of the address space and no wrapped trimming happens. |
| RamFile.File.ReadPages | ram_fs.cpp:74-90 | The exit for missing pages in the loop is unreachable; the bytes are those at the cursor. |
| RamFile.File.Read | ram_fs.cpp:54-93 | Returns exactly min(n, size - position) bytes of the contents from the cursor on and changes neither contents nor size. |
| Descriptors.Table.AllocateFd | filesystem.cpp:157-165 | The first free number from the last one handed out. |
| Descriptors.Table.OpenFile | posix.cpp:218-221 | The descriptor handed out and the cursor start at 0, and nothing else changes; a step of the model with an offset per descriptor. |
| Descriptors.Table.WriteFd | posix.cpp:236-248 | A step of that model: the bytes go to the descriptor's own offset though all descriptors share one cursor, no other byte changes, and offset and cursor end behind them. |
| Descriptors.Table.ReadFd | posix.cpp:251-263 | The same for reading: it returns the bytes at the descriptor's own offset, as many as there are. |
| Descriptors.Table.CloseFd | posix.cpp:266-277 | The descriptor and no other is gone; EBADF exactly for an unknown one. |
| Descriptors.Table.Lseek | posix.cpp:280-303 | The same for SEEK_SET and SEEK_END to places in the file; for any offset the result in 32 bits, and EBADF exactly for an unknown descriptor. |
| Descriptors.Table.LseekCurrent | posix.cpp:291-293 | For any offset it moves from the shared cursor, in 32 bits; where the descriptor's own offset would lead into the file, the outcome is the right one exactly when both are equal. |
| Descriptors.Table.Duplicate | posix.cpp:314-326 | The copy starts at the same offset and then moves on its own. |
| Descriptors.SeekCurExact | posix.cpp:280-303 | Over every run, a SEEK_CUR does what it should exactly when the descriptor stands where the last call that moved the cursor ended, whichever descriptor that call was on; if that one is unchanged since, exactly when both stand at the same offset. |
| Descriptors.RunsAgree | posix.cpp:236-326 | Every run in which each SEEK_CUR comes with the cursor at its own descriptor, so every run without SEEK_CUR, is a run of descriptors with offsets of their own. |
| Descriptors.SeekCurrentFails | posix.cpp:291-293 | Two descriptors, one byte written through the first: the second, at offset 0, seeks by 0 and ends at 1. |
| Descriptors.OthersDoNotDisturb | posix.cpp:236-263 | No run of calls on other descriptors moves a descriptor, nor, without writes, changes what it reads next. |
| Descriptors.WriteInChunks | ram_fs.cpp:12-52 | Any split of a write has the effect of the whole. |
| Descriptors.ReadInPieces | ram_fs.cpp:54-93 | Any split of a read returns the bytes of the whole. |
| Descriptors.ReadBack | ram_fs.cpp:12-93 | What is written in any chunks reads back in any pieces. |
| Descriptors.OpenThenRead | posix.cpp:218-263 | Whatever was called before, reading through a descriptor just opened, in any pieces, gives the file from its beginning. |
| Descriptors.CopyReadsSame | posix.cpp:314-326 | A duplicate reads what the original would in any pieces, and no run of calls on it or others moves the original. |
| Descriptors.ClosedStays | posix.cpp:266-277 | A closed descriptor stays unknown over every run that does not hand its number out again, and the others stay. |
| Paths.PathIsNames | filesystem.cpp:34-41 | The printed path is a slash and the names from the root down, joined by slashes. |
| Paths.FindEntry | ram_fs.cpp:141-152 | The directory's lookup by name. |
| Paths.PathToEntry | filesystem.cpp:167-207 | Reading the path as a stream leads to what the path resolves to, which the rows below say without it. |
| Paths.WalkIsNames | filesystem.cpp:197-205 | Following names from the root leads to an entry exactly when they are its names. |
| Paths.PathRoundTrip | filesystem.cpp:34-41 | The printed path of any entry resolves to it from any directory, and an absolute path of good names resolves to an entry exactly when it is the one printed for it. |
| Paths.FromParent | filesystem.cpp:171-179 | ".." and a path that begins with it lead where the absolute path through the parent of the current directory does, or through the root from there. |
| Paths.FromHere | filesystem.cpp:171-184 | "." and a path that begins with it lead where the absolute path through the current directory does. |
| Paths.FromNames | filesystem.cpp:192-194 | So does a path that begins with neither dot nor slash. |
| Paths.DotsUndo | filesystem.cpp:197-205 | Inside a path ".." undoes the name before it exactly if that leads to a directory; else nothing is found. |
| Paths.DotStays | filesystem.cpp:197-205 | "." inside a path stays at a directory; behind anything else nothing is found. |
| Paths.NothingAboveRoot | filesystem.cpp:171-205 | ".." from the root is the root at the beginning of a path, and nothing inside it. |
| Paths.PanicExactly | filesystem.cpp:180-183 | The resolver gives up exactly on paths that go on, after one or two dots at the beginning, with something other than a slash. |
| Paths.SlashAtEnd | filesystem.cpp:197-198 | A slash at the end changes nothing. |
| Paths.ResolveParent | filesystem.cpp:221-230 | Resolves what stands before the last slash, or nothing if there is none. |
| Paths.PathSplit | filesystem.cpp:213-228 | Directory part and file name are the two sides of the last slash; without one there is only a name. |
| Paths.ParentAndLeaf | filesystem.cpp:213-230 | For absolute paths of at least two non-empty components, looking the last one up in the parent gives what the whole path gives, also when something is missing or not a directory. |
| Paths.LeafInParent | filesystem.cpp:213-230 | The same for every path, absolute or not, whose part before the last slash is not empty and does not end in a slash, panics included. |
| Paths.NameAlone | filesystem.cpp:213-230 | A name alone is found in the current directory, and as the whole path is exactly if it does not begin with a dot. |
| Paths.SingleComponent | filesystem.cpp:221-230 | For one component the parent found is the root exactly when the current directory is the root; and looking it up there gives what the whole path gives exactly when the current directory and the root have the same entry, or none, of that name. |
| Paths.SingleComponentFails | filesystem.cpp:221-230 | A tree and a directory from which an existing entry of the root is missed. |
| Paths.Attach | ram_fs.cpp:154-172 | Appending an entry with a good unused name to a directory keeps every entry reachable under its one parent, names unique. |
| Paths.Create | ram_fs.cpp:154-172 | A new entry with a good name not in use keeps the tree. |

## Left out

- Heap.Heap.Malloc: is stated for requests up to 2^32 - 81 bytes; beyond, the padded size wraps (HeapLayout.RequestArithmetic says exactly where), and the branch for a padded size of 0 is reached only there.
- Heap.Heap.Realloc: is stated for the same sizes; when the chunk must grow it assumes that malloc succeeds, since the code copies into its result without looking at it.
- Heap.Heap.Free: headers are found at pointers from malloc, live or freed, not at arbitrary addresses; free space of two blocks is compared without the conversion to signed int, which differs only for blocks with 2 GiB free.
- l_bestBet as "the major with the most free memory": the code does not maintain it; proved is that it is null or a block of the list.
- calloc: its product is formed in a signed int, and the fill is done without a null check.
- HeapPages.Alloc: malloc is given the hook's answer as a parameter asked for beforehand, and does not call the hook in the middle of its search.
- PageTables.NewTable: memory_map does not clear the new table's frame; NewTable says for which contents the agreement is kept, and nothing in the code ensures that it is one of those.
- Ledger.TableMade: is stated for a frame that reads as zeros, the case in which PageTables.NewTable keeps the agreement.
- KernelPages.PageAllocator.EnsureTable: takes the new table's frame as zeros, as Ledger.TableMade does.
- KernelPages.PageAllocator.FrameTable: the same.
- KernelPages.PageAllocator.MakeTable: the same.
- Outcomes.TakeMeans: the exact outcome without tables for all free pages is `Outcomes.Take` itself; a closed condition for saving to fail is given for one page (Outcomes.OneSaves).
- KernelPages.PageAllocator.KernelPageToFrame: of the console's page it gives the recorded frame, as the code does.
- KernelPages.PageAllocator.AddAllocation: the node of the process's own map comes from the heap, which may allocate pages in turn; here that map grows in one step.
- KernelPages.PageAllocator.EmplaceLedger: the list of nodes with their slot bitmaps is reduced to a number of slots; a slot freed in any node is as good as any other.
- KernelPages.PageAllocator.MemoryMap: is stated for user pages below the kernel and kernel pages above it, other than table windows, as the repository maps them; user pages above the kernel would be seen by all processes.
- KernelPages.PageAllocator.AllocatePages: the branch before initialization is not modelled; it may never end when an isolated page was given back. Only the kernel's own pages are allocated without an address, as everywhere in the repository.
- KernelPages.PageAllocator.AllocateAt: is stated for ranges below the kernel, where processes live.
- KernelPages.PageAllocator.MemoryUnmap: is stated for pages other than table windows, the kernel image and the page of the saved record; unmapping one of those would leave a record of nothing.
- KernelPages.PageAllocator.DeallocateSinglePage: is stated for pages other than table windows and the kernel image, which nobody gives back.
- KernelPages.PageAllocator.DeallocatePages: for the same pages, and after initialization.
- Booting.Start: takes what the boot code and the marking loops leave as values, only the virtual space's loops are run (Extents.Boot); not for pages given back before, nor when booting allocated across the end of the tables made at first, where the page of the new table is recorded but not mapped.
- The record of the page fork maps temporarily stays in the ledger after the page is unmapped; such records are `stale` here.
- Processes.Scheduler.StartChild: the interrupt stack's contents are not modelled.
- Processes: interrupts, exit and wait; the current process's map is kept in the allocator as well as in the list.
- Contents of pages just allocated are whatever the frames held.
- RamFile.File.Write: page data comes from the heap of the model, and sizes do not reach 2^32.
- RamFile.File.Read: is stated for a cursor at most at the end of the file; past it the code's unsigned difference wraps (RamFile.FirstPieceFits) and it copies from outside the page.
- Descriptors.Table.OpenFile: opens the one file directly; looking the path up, creating it and following links are not part of it.
- Descriptors.Table.Lseek: gives the offset for targets outside the file too, but reads and writes from there are not covered.
- Descriptors.Table.LseekCurrent: the same.
- Descriptors.Table.Duplicate: not for a descriptor onto itself, where the code first erases the entry it then copies.
- Paths.PathRoundTrip: for trees of RAM directories whose names are unique per directory, contain no slash and are neither empty nor "." nor ".."; the code does not check names on creation.
- Paths.Create: for the same names; the code does not check them.
- remove_file, symbolic links, the initial RAM disk and the pseudo file systems: easy, or input and output.
- Unix sockets: a read that splits a block leaves it out of its count.
- mmap of device files and ELF loading, which bypass the ledger; hardware access, keyboard, terminal and serial line; the user-space copy of the heap.
