# Verified models of D3OS

Models, in Dafny 4.11, of the parts of the D3OS kernel and applications where state is most
intricate, with proofs of what they promise.

* **Page tables** (`PageTable`, `PageMap`, `PageUnmap`, `PageCopy`, `Paging`, `AddressSpaces`,
  `FreshPages`, `UserAccess`).
  Physical memory is a map from frames to tables of 512 entries, and the routines rewrite entries in
  place.  A hierarchy means a flat map from pages to leaf entries; mapping, unmapping, copying and
  dropping are proved against that map at every depth, together with the frames they take and give
  back.  Runs over several address spaces are proved isolated and frame-conserving; it is proved
  which pages share no frame, and which can be reached from user mode.  Depth and number of address
  spaces are arbitrary.
* **Physical memory at boot** (`Regions`, `RegionAlgebra`, `Dram`, `DramBoot`).  Interval sets in
  fixed arrays, with an exact set-of-addresses meaning for every operation and for every boot run.
* **Frame allocators** (`FreeList`, `FrameAllocator`, `FrameRun`, `FrameLf`, `FrameInit`).  The
  linked free list refines the list of maximal free runs; its global counter is followed through
  every interleaving of threads; the lock-free back end reserves exact ranges chunk by chunk; both
  start from the same frames.
* **Virtual address spaces** (`VmaMap`, `Vmm`, `CopySpace`).  Areas, gap search, full, partial,
  physical and fault-driven mapping over the page tables above, and the paged copy between spaces.
* **Named pipe** (`Pipe`, `PipeRuns`), as atomic steps of any number of threads.
* **Window manager** (`WindowTree`, `Workspace`), by window ids.
* **netperf control protocol** (`Framing`, `Netperf`), down to bytes split anywhere on the wire.

Failing assertions, `unwrap`s and running out of memory are results (`ok`, `None`, `Panic`,
`Refused`), never preconditions.  The preconditions that remain are what the code relies on: a
range has its start at or before its end, frames to be freed while unmapping are mapped once, and
page tables form a tree.  `usize` and `u64` are unbounded integers except where wrap-around or
overflow checks decide something: the frame counter, the pipe counter, the address arithmetic of
`alloc_at` and `alloc`, and the length prefix.

The ordered map of virtual memory areas is the sequence of its values in key order; a linked-list
cursor is an index whose value at the length is the place between last and first element.  The
window tree is owned by one place, so replacing its nodes is modelled as computing the new tree.

Ten properties that one might expect do not hold of the code, and are stated with their exact
condition:

* Unmapping is guaranteed exact where tables exist (`UnmapTranslates`).  A missing table is stepped
  over without advancing the range, so elsewhere the walk may stray (`VisitsRangeIff`,
  `SparseUnmapExample`); `AlwaysExactIff` says for which tables it never does harm.
* Freeing does not notice every overlap, and the list suffers exactly then (`FreePanicsIff`,
  `FreeKeepsIff`, `UndetectedOverlap`).
* The final available regions may touch (`FinalizeSeparated`, `EmptyReservedRun`), although the
  comment on `finalize_available_regions` calls them merged.
* In a debug build `boot_alloc` may panic on a record that the insertions accepted
  (`DebugPanicsIff`, `BootNonEmpty`, `EmptyRangeRun`).
* Moving a window forward and back is the identity only away from the end of the order, and backward
  and forward only away from its beginning (`ForwardThenBackward`, `LastMoveNotUndone`,
  `BackwardThenForward`, `FirstMoveNotUndone`).
* A read from a pipe may answer end of file although a byte is queued, at either of the two places
  where it looks for data (`EndOfFileIff`, `EndOfFileTooSoon`, `EndOfFileInLoop`).
* End of file may even be answered while the writer is there, in the middle of a write
  (`EndOfFileSawNoWriter`, `EndOfFileWithWriter`).
* A page mapped to a frame of its own loses it when the frame is freed through a copy of its space
  (`RunFreshIff`, `FreedTooEarly`).
* A page mapped with user flags may be out of reach for user code, because entries above it are not
  upgraded (`MappedAccessible`, `ShutOut`).
* A netperf session with a single TCP stream may stop half way, because the client connects without
  waiting for the server to bind its port (`CompletesIff`, `TurnedAwayIsEarly`).

## Model

| member | source | states |
|---|---|---|
| `PageTable.PageTableIndexIsIndex` | os/kernel/src/memory/pages.rs:46-48 | the shift-and-truncate index of an address is the base-512 digit of its page number, whatever the offset |
| `PageTable.TranslateIsLeaf` | os/kernel/src/memory/pages.rs:394-408 | walking the tables is lookup in the flat map from pages to leaf entries, with the page offset kept, at every depth |
| `PageTable.LeafFrame` | os/kernel/src/memory/pages.rs:394-408 | the translation of a hierarchy depends on nothing but the frames of its own tables |
| `PageMap.NewTable` | os/kernel/src/memory/pages.rs:245-253 | hanging a zeroed table into an unused slot keeps the tables a tree and changes no translation |
| `PageMap.NewTablePaths` | os/kernel/src/memory/pages.rs:245-253 | an upper entry made on the way gets the flags of the mapping, and no other upper entry changes |
| `PageMap.ChildPaths` | os/kernel/src/memory/pages.rs:255-261 | so does everything mapped behind one slot |
| `PageMap.MappedThenChild` | os/kernel/src/memory/pages.rs:255-261 | mapping a range and then, behind one slot, the pages that follow is mapping the longer range: leaves, new tables, taken frames and the flags of new upper entries add up |
| `PageUnmap.VisitDense` | os/kernel/src/memory/pages.rs:284-332 | when every page of the range has its tables the walk reaches exactly the range and reports its length |
| `PageUnmap.VisitsRangeIff` | os/kernel/src/memory/pages.rs:284-332 | the walk reaches exactly the range if and only if every page of the range has its tables |
| `PageUnmap.ExactAsForetold` | os/kernel/src/memory/pages.rs:284-332 | unmapping turns out exact, that is clears the range and nothing else, if and only if among the pages mapped before the walk reaches those of the range and no others |
| `PageUnmap.AlwaysExactIff` | os/kernel/src/memory/pages.rs:284-332 | unmapping is exact for every filling of the existing level-1 tables if and only if the walk reaches exactly those pages of the range that have their tables |
| `PageUnmap.SparseWalkStrays` | os/kernel/src/memory/pages.rs:290-292 | below missing tables, unmapping page 0 clears a page of the first table that exists |
| `PageUnmap.SparseExampleIsTree` | os/kernel/src/memory/pages.rs:290-292 | that hierarchy is a proper tree of tables |
| `PageUnmap.SparseUnmapExample` | os/kernel/src/memory/pages.rs:290-292 | a two-level hierarchy for which unmapping page 0 clears page 512, so exactness fails there |
| `PageUnmap.UnmappedThen` | os/kernel/src/memory/pages.rs:289-308 | unmapping one part of a range and then another is unmapping both: cleared leaves, emptied tables and freed frames add up |
| `PageUnmap.SlotUnmappedUnmaps` | os/kernel/src/memory/pages.rs:294-303 | unmapping behind one slot, and giving the child table back if it became empty, clears exactly those leaves and leaves no empty child |
| `PageUnmap.SlotPaths` | os/kernel/src/memory/pages.rs:294-303 | upper entries keep their flags as long as they are there |
| `PageCopy.CopySlot` | os/kernel/src/memory/pages.rs:210-225 | copying one more slot extends a partial copy: same leaves so far, all tables of the copy fresh and unshared |
| `PageCopy.CopyComplete` | os/kernel/src/memory/pages.rs:209-232 | after 512 slots the copy has every leaf of the original and every flag on the way to it, although its tables were never zeroed |
| `PageCopy.DropSlot` | os/kernel/src/memory/pages.rs:337-344 | dropping the child behind one slot gives back exactly the tables of that child |
| `Paging.Machine.IdentityMapKernel` | os/kernel/src/memory/pages.rs:411-426 | pages of one table get the frame of the same number, up to the end of the range or of the table |
| `Paging.Machine.MapUserPhysical` | os/kernel/src/memory/pages.rs:447-461 | pages of one table get the given frames in order |
| `Paging.Machine.MapUser` | os/kernel/src/memory/pages.rs:429-444 | pages of one table get distinct frames taken out of the free ones; failure only when none is free |
| `Paging.Machine.NextLevelTable` | os/kernel/src/memory/pages.rs:244-253 | the table behind a slot, fresh, empty and under an entry with the flags of the mapping if there was none, with no translation changed |
| `Paging.Machine.MapLevelOne` | os/kernel/src/memory/pages.rs:267-278 | the three ways of filling leaf entries, with the frames each uses |
| `Paging.Machine.MapSlot` | os/kernel/src/memory/pages.rs:243-266 | one turn of the loop extends the mapped range by what fits behind the slot |
| `Paging.Machine.MapInTable` | os/kernel/src/memory/pages.rs:238-281 | for every depth, tree and range: page i of the range gets frame i, every other leaf of the table stays, new tables and allocated frames come out of the free set, no table is shared, new upper entries have the given flags and old ones keep theirs |
| `Paging.Machine.MapUpper` | os/kernel/src/memory/pages.rs:242-266 | the same for a table above level 1, slot by slot |
| `Paging.Machine.ClearEntry` | os/kernel/src/memory/pages.rs:318-325 | one leaf is cleared and its frame given back just when asked and used |
| `Paging.Machine.UnmapLevelOne` | os/kernel/src/memory/pages.rs:309-328 | the leaves of one table are cleared and each used frame freed once iff asked |
| `Paging.Machine.IsTableEmpty` | os/kernel/src/memory/pages.rs:464-472 | true exactly when none of the 512 entries is used |
| `Paging.Machine.DropIfEmpty` | os/kernel/src/memory/pages.rs:299-303 | an empty child table is given back and its slot cleared, a non-empty one is kept |
| `Paging.Machine.UnmapSlot` | os/kernel/src/memory/pages.rs:294-303 | one turn of the loop over the used slots of an upper table |
| `Paging.Machine.UnmapTurn` | os/kernel/src/memory/pages.rs:289-308 | after a slot the walk is over, or in progress at the next slot with the rest of the tables untouched |
| `Paging.Machine.UnmapInTable` | os/kernel/src/memory/pages.rs:284-332 | in place, the leaves the walk reaches are cleared, emptied tables and (iff asked) data frames are freed once, nothing else changes |
| `Paging.Machine.UnmapUpper` | os/kernel/src/memory/pages.rs:288-308 | the same for a table above level 1, slot by slot |
| `Paging.Machine.CopyTable` | os/kernel/src/memory/pages.rs:209-232 | the target becomes an unshared copy with the same leaves and the same flags at every level, built only from free frames |
| `Paging.Machine.CopyOneSlot` | os/kernel/src/memory/pages.rs:212-224 | one slot of an upper table is copied with everything behind it |
| `Paging.Machine.DropChildren` | os/kernel/src/memory/pages.rs:337-344 | all tables behind the slots of a table are given back |
| `Paging.Machine.DropTable` | os/kernel/src/memory/pages.rs:335-352 | exactly the tables of the hierarchy become free, each once |
| `AddressSpaces.StepIsolated` | os/kernel/src/memory/pages.rs:63-85 | an operation on one address space leaves tables, translation and flags of every other space as they were |
| `AddressSpaces.StepInv` | os/kernel/src/memory/pages.rs:63-85 | every operation keeps the live tables an unshared forest apart from free and data frames and conserves the frames |
| `AddressSpaces.StepTrim` | os/kernel/src/memory/pages.rs:299-303 | no operation leaves an empty table below a root, given that mappings are non-empty and set a flag |
| `AddressSpaces.RunConserves` | os/kernel/src/memory/pages.rs:209-352 | over every run of new, copy, map, unmap and drop: tables stay an unshared forest and no frame is lost, invented or owned twice |
| `AddressSpaces.RunReturnsTables` | os/kernel/src/memory/pages.rs:50-58 | once every space is dropped no table frame is live: free and data frames are exactly the frames of the start |
| `AddressSpaces.RunIsolated` | os/kernel/src/memory/pages.rs:63-85 | a space that no operation of a run names translates at the end as at the start |
| `AddressSpaces.CopyThenRun` | os/kernel/src/memory/pages.rs:72-85 | after any later operations on other spaces, the original included, a copy still translates as the original did when copied |
| `AddressSpaces.RunTrim` | os/kernel/src/memory/pages.rs:299-303 | over every run no reachable table below a root is empty |
| `AddressSpaces.MapTranslates` | os/kernel/src/memory/pages.rs:238-281 | after mapping, every address at all whose low digits name page i of the range translates to frame i with the offset kept, every other address as before |
| `AddressSpaces.MapTranslatesHere` | os/kernel/src/memory/pages.rs:238-281 | in particular, among the addresses the table was built for, exactly page i of the range translates to frame i |
| `AddressSpaces.UnmapTranslates` | os/kernel/src/memory/pages.rs:284-332 | after unmapping a range whose tables all exist, no address whose low digits name a page of it translates and every other address translates as before |
| `AddressSpaces.MapThenUnmap` | os/kernel/src/memory/pages.rs:238-332 | unmapping a range just mapped clears it, restores nothing else and gives back exactly the frames that were mapped |
| `AddressSpaces.SpaceTable.constructor` | os/kernel/src/memory/pages.rs:63-69 | no space, no data frame |
| `AddressSpaces.SpaceTable.Create` | os/kernel/src/memory/pages.rs:63-69 | a new empty root, or out of memory |
| `AddressSpaces.SpaceTable.FromOther` | os/kernel/src/memory/pages.rs:72-85 | a copy of another space, or out of memory |
| `AddressSpaces.SpaceTable.CopyInto` | os/kernel/src/memory/pages.rs:72-85 | the space just created becomes an unshared copy of the other one, or out of memory |
| `AddressSpaces.SpaceTable.MapRange` | os/kernel/src/memory/pages.rs:106-112 | one mapping step, or out of memory |
| `AddressSpaces.SpaceTable.MapPhysical` | os/kernel/src/memory/pages.rs:116-124 | one mapping step to given frames, or out of memory; refused when the numbers of frames and pages differ |
| `AddressSpaces.SpaceTable.UnmapRange` | os/kernel/src/memory/pages.rs:154-160 | one unmapping step |
| `AddressSpaces.SpaceTable.DropSpace` | os/kernel/src/memory/pages.rs:50-58 | one drop step |
| `FreshPages.LeftAlone` | os/kernel/src/memory/pages.rs:238-332 | a page whose leaf no operation sets or clears keeps its leaf |
| `FreshPages.AllottedOk` | os/kernel/src/memory/pages.rs:429-444 | the frames taken for the pages of a mapping were free, are handed out now, and no two pages get the same one |
| `FreshPages.StepFresh` | os/kernel/src/memory/pages.rs:238-352 | pages mapped to frames of their own go on naming distinct frames that are handed out, after an operation, if and only if it gives back no frame that such a page left alone still names |
| `FreshPages.FreshOnly` | os/kernel/src/memory/pages.rs:309-328 | an unmapping whose mapped pages are all such pages gives back no frame of another one |
| `FreshPages.FreshIff` | os/kernel/src/memory/pages.rs:238-352 | those pages are exactly the ones that got a frame from the allocator at some step and were not remapped, unmapped or dropped since |
| `FreshPages.RunFreshIff` | os/kernel/src/memory/pages.rs:238-352 | all along a run they name distinct frames that are handed out, if and only if no operation of the run gives back a frame of one it leaves alone |
| `FreshPages.NoSharing` | os/kernel/src/memory/pages.rs:268-276 | over every such run: no two pages mapped to frames of their own, in one space or in two, share a frame while both are mapped, and their frames are neither free nor tables |
| `FreshPages.CopyThenFree` | os/kernel/src/memory/pages.rs:72-85 | when a copy of a space unmaps a page and frees its frame, the page stays mapped in the original, to a frame that is free |
| `FreshPages.FreedTooEarly` | os/kernel/src/memory/pages.rs:72-85 | such a run of three operations exists from every state with a space of one table and two free frames |
| `UserAccess.MappedAccessible` | os/kernel/src/memory/pages.rs:245-253 | a page mapped with user flags can be reached from user mode if and only if the upper entries that were on its way before allow it: they are not upgraded |
| `UserAccess.ShutOut` | os/kernel/src/memory/pages.rs:245-253 | two pages under a table that is not there yet: mapped first without and then with user access, the second cannot be reached |
| `UserAccess.CopyAccessible` | os/kernel/src/memory/pages.rs:209-232 | a copy gives user code the same access as the original |
| `UserAccess.UnmapAccessible` | os/kernel/src/memory/pages.rs:284-332 | a page that stays mapped through an unmapping is accessible as before |
| `Regions.Canonical` | os/kernel/src/memory/dram.rs:44-66 | a separated list without empty regions is determined by the addresses it covers |
| `Regions.MergeCovers` | os/kernel/src/memory/dram.rs:127-147 | the in-place merge keeps the covered addresses |
| `Regions.MergeSeparated` | os/kernel/src/memory/dram.rs:127-147 | the merge of a sorted list leaves a gap between neighbours |
| `Regions.InsertCorrect` | os/kernel/src/memory/dram.rs:95-155 | inserting a region adds exactly its addresses and keeps the list sorted and separated |
| `RegionAlgebra.SubtractCovers` | os/kernel/src/memory/dram.rs:166-265 | the difference covers exactly the available addresses that are not reserved |
| `RegionAlgebra.SubtractShape` | os/kernel/src/memory/dram.rs:166-265 | the difference is a sorted disjoint list of non-empty regions |
| `RegionAlgebra.SubtractSeparatedIff` | os/kernel/src/memory/dram.rs:166-265 | the difference is strictly separated if and only if no empty reserved region lies strictly inside an available one |
| `RegionAlgebra.SubtractCount` | os/kernel/src/memory/dram.rs:166-265 | the difference has at most as many regions as both lists together |
| `RegionAlgebra.SkipAllDone` | os/kernel/src/memory/dram.rs:211-216 | reserved regions that end before the current available region may be skipped for good |
| `RegionAlgebra.ComplementCovers` | os/kernel/src/memory/dram.rs:269-336 | the complement covers exactly the addresses below the limit that the list does not |
| `RegionAlgebra.ComplementShape` | os/kernel/src/memory/dram.rs:269-336 | the complement is sorted, disjoint, within the limit and no longer than the list plus one |
| `RegionAlgebra.CarveCovers` | os/kernel/src/memory/dram.rs:374-397 | carving takes exactly the granted addresses away |
| `Dram.ApplyInv` | os/kernel/src/memory/dram.rs:70-406 | every operation, allocation after finalize included, keeps both lists sorted, disjoint, aligned, below the limit, and page 0 unavailable |
| `Dram.BootInv` | os/kernel/src/memory/dram.rs:70-155 | so does every sequence of them |
| `Dram.BootFold` | os/kernel/src/memory/dram.rs:70-155 | after every boot run an address is available, or reserved, exactly when the sequence of operations says so |
| `Dram.BootLimit` | os/kernel/src/memory/dram.rs:104-104 | after every boot run the limit is the highest end among the ranges inserted, those dropped with page 0 not counted, or 0 |
| `Dram.ApplyCovers` | os/kernel/src/memory/dram.rs:70-406 | one operation before or after finalize changes the two address sets exactly as it should |
| `Dram.GrantIsFirstFit` | os/kernel/src/memory/dram.rs:344-406 | a grant lies in the lowest region that can hold it, at its front; no grant only if no region can hold it |
| `Dram.InsertAnswers` | os/kernel/src/memory/dram.rs:95-113 | a range is taken in exactly before finalize and while its set has a slot left |
| `Dram.AllocAnswers` | os/kernel/src/memory/dram.rs:344-358 | a request gets an answer exactly for at least one frame whose bytes fit a word; without a grant nothing changes |
| `Dram.Sealed` | os/kernel/src/memory/dram.rs:70-406 | once finalized only allocation changes the record, and it only takes available addresses away |
| `Dram.BootFinalize` | os/kernel/src/memory/dram.rs:159-336 | after finalize, available and reserved partition the addresses below the limit, no address reserved before is available, and the limit is the highest end inserted |
| `Dram.FinalizeFits` | os/kernel/src/memory/dram.rs:166-336 | finalize cannot run out of slots while both lists together stay below the maximum |
| `Dram.FinalizeSeparated` | os/kernel/src/memory/dram.rs:166-265 | the final available list is strictly separated if and only if no empty reserved region lies strictly inside an available one |
| `Dram.EmptyReservedSplits` | os/kernel/src/memory/dram.rs:220-249 | an empty reserved region splits an available one into two that touch |
| `Dram.EmptyReservedRun` | os/kernel/src/memory/dram.rs:70-265 | a boot run of two insertions after which finalize leaves two regions that touch |
| `Dram.DebugPanicsIff` | os/kernel/src/memory/dram.rs:359-367 | in a debug build some allocation fails its assertion if and only if an available region is empty |
| `Dram.BootNonEmpty` | os/kernel/src/memory/dram.rs:70-406 | a boot run that inserts no empty range as available leaves no empty available region |
| `Dram.EmptyRangeRun` | os/kernel/src/memory/dram.rs:70-86 | inserting one empty range makes the next allocation of a debug build panic, whatever its size |
| `DramBoot.FindPos` | os/kernel/src/memory/dram.rs:115-119 | the first slot whose region starts at or after the new one |
| `DramBoot.OpenGap` | os/kernel/src/memory/dram.rs:121-124 | the tail of the array moves up by one slot |
| `DramBoot.InsertInPlace` | os/kernel/src/memory/dram.rs:115-127 | the array holds the sorted list with the region inserted |
| `DramBoot.MergeInPlace` | os/kernel/src/memory/dram.rs:132-147 | the write/read cursor loop computes the merged list |
| `DramBoot.MergeTurn` | os/kernel/src/memory/dram.rs:132-147 | one turn of that loop: the next region joins the current one or takes the next slot, and what is merged so far with what is left still makes up the merged list |
| `DramBoot.ClearSlots` | os/kernel/src/memory/dram.rs:149-152 | trailing slots are emptied and the others kept |
| `DramBoot.RemoveInPlace` | os/kernel/src/memory/dram.rs:386-393 | one region leaves the array and the rest moves down |
| `DramBoot.RegionSet.InsertRegion` | os/kernel/src/memory/dram.rs:95-155 | the set becomes the list with the region inserted and merged; false exactly for the panics |
| `DramBoot.RegionSet.TakeFirstFit` | os/kernel/src/memory/dram.rs:359-405 | the first region that is large enough is carved from the front, or nothing changes; in a debug build a panic exactly when the search comes to a region that is empty or not aligned |
| `DramBoot.RegionSet.CarveFront` | os/kernel/src/memory/dram.rs:374-397 | a region used up is removed, any other one shrinks |
| `DramBoot.PushRegion` | os/kernel/src/memory/dram.rs:184-195 | appends one region or reports that the array is full |
| `DramBoot.ScanRegion` | os/kernel/src/memory/dram.rs:218-254 | one available region minus the reserved ones from a given index on |
| `DramBoot.SkipReserved` | os/kernel/src/memory/dram.rs:211-216 | the shared cursor skips only reserved regions that can no longer matter |
| `DramBoot.SubtractOne` | os/kernel/src/memory/dram.rs:200-255 | one available region minus all reserved ones, with the shared cursor moved on |
| `DramBoot.SubtractLists` | os/kernel/src/memory/dram.rs:178-255 | the whole loop with its forward-only cursor computes the difference, or the array is too small |
| `DramBoot.StoreList` | os/kernel/src/memory/dram.rs:257-264 | the result replaces the contents of the set |
| `DramBoot.StoreComplement` | os/kernel/src/memory/dram.rs:283-335 | the reserved set becomes the complement of the available one below the limit |
| `DramBoot.Record.constructor` | os/kernel/src/memory/dram.rs:31-66 | empty sets, limit zero, not finalized |
| `DramBoot.Record.InsertAvailable` | os/kernel/src/memory/dram.rs:70-86 | refines the Available operation, page 0 cut off, with the limit the higher of the old one and the end |
| `DramBoot.Record.InsertReserved` | os/kernel/src/memory/dram.rs:89-92 | refines the Reserve operation, with the limit the higher of the old one and the end |
| `DramBoot.Record.BootAlloc` | os/kernel/src/memory/dram.rs:344-406 | refines the Alloc operation; the panics are a zero or overflowing count and, in a debug build, an empty or unaligned region met by the search |
| `DramBoot.Record.FinalizeAll` | os/kernel/src/memory/dram.rs:159-162 | refines the Finalize operation |
| `DramBoot.Record.FinalizeAvailable` | os/kernel/src/memory/dram.rs:166-265 | the available set becomes the difference, once |
| `FreeList.RunsUnique` | os/kernel/src/memory/frames.rs:340-397 | one list only represents a set of free frames |
| `FreeList.AllocFailsIff` | os/kernel/src/memory/frames.rs:252-296 | out of memory is reported exactly when no run of n consecutive free frames exists |
| `FreeList.AllocCorrect` | os/kernel/src/memory/frames.rs:252-296 | the block returned is the lowest run of n free frames and exactly its frames leave the list, which keeps holding the maximal runs |
| `FreeList.FreePanicsIff` | os/kernel/src/memory/frames.rs:345-392 | freeing a range, possibly empty, panics exactly when it overlaps a block and no block ends where it starts |
| `FreeList.UndetectedOverlap` | os/kernel/src/memory/frames.rs:372-385 | a range that continues a block and overlaps its successor is accepted and breaks the order of the list |
| `FreeList.FreeKeepsIff` | os/kernel/src/memory/frames.rs:340-397 | where freeing does not panic, the list holds maximal runs again if and only if no block overlaps the range |
| `FreeList.FreeCorrect` | os/kernel/src/memory/frames.rs:340-397 | freeing frames that are not free yields the maximal runs again, without panic |
| `FreeList.FreeCovers` | os/kernel/src/memory/frames.rs:340-397 | and adds exactly those frames, none for an empty range |
| `FrameAllocator.Splice` | os/kernel/src/memory/frames.rs:188-209 | rewriting one link replaces a stretch of the chain by at most one block |
| `FrameAllocator.PageFrameList.constructor` | os/kernel/src/memory/frames.rs:168-170 | the empty list |
| `FrameAllocator.PageFrameList.LinkIn` | os/kernel/src/memory/frames.rs:173-210 | one node replaces a stretch of the chain |
| `FrameAllocator.PageFrameList.LinkOut` | os/kernel/src/memory/frames.rs:215-221 | a stretch of the chain is linked out |
| `FrameAllocator.PageFrameList.FindAbove` | os/kernel/src/memory/frames.rs:189-202 | the cursor in front of the first block that starts above an address |
| `FrameAllocator.PageFrameList.InsertRange` | os/kernel/src/memory/frames.rs:173-210 | the range becomes a block at its place in the ascending chain |
| `FrameAllocator.PageFrameList.FindFreeBlock` | os/kernel/src/memory/frames.rs:213-228 | the first block that is large enough is unlinked, or nothing changes |
| `FrameAllocator.PageFrameList.AllocFrames` | os/kernel/src/memory/frames.rs:252-296 | the chain becomes the list with the block carved; None is the out-of-memory panic |
| `FrameAllocator.PageFrameList.PutBack` | os/kernel/src/memory/frames.rs:256-271 | what is left of the block goes back in its place |
| `FrameAllocator.PageFrameList.FreeFrames` | os/kernel/src/memory/frames.rs:340-397 | on every chain and for every range, possibly empty, the chain becomes the list with the range freed; false is the panic on an overlap |
| `FrameAllocator.PageFrameList.InsertFreed` | os/kernel/src/memory/frames.rs:387-396 | a range that touches no block goes to its place |
| `FrameAllocator.PageFrameList.FuseBelow` | os/kernel/src/memory/frames.rs:359-371 | a block extended from the bottom moves its node |
| `FrameAllocator.PageFrameList.FuseAbove` | os/kernel/src/memory/frames.rs:372-385 | a block extended from the top, and fused with its successor where they touch |
| `FrameAllocator.PageFrameList.TotalFree` | os/kernel/src/memory/frames.rs:52-61 | the sum of the block lengths |
| `FrameRun.SizeIsCount` | os/kernel/src/memory/frames.rs:52-61 | that sum is the number of free frames |
| `FrameRun.StepInv` | os/kernel/src/memory/mod.rs:66-76 | every atomic step of any number of threads keeps free, owned and in-flight frames apart and the counter balanced |
| `FrameRun.RunInv` | os/kernel/src/memory/mod.rs:66-76 | over every interleaving no frame is lost, invented or handed out twice, and counter minus list length changes only by what is pending, modulo 2^64 |
| `FrameRun.AllocationsDisjoint` | os/kernel/src/memory/mod.rs:66-69 | a new allocation shares no frame with anything owned or on its way back, in any reachable state |
| `FrameRun.FreeNeverPanics` | os/kernel/src/memory/mod.rs:73-76 | frames that were owned can always be put back |
| `FrameRun.CounterShowsSize` | os/kernel/src/memory/mod.rs:43-49 | whenever no call is under way the counter shows the length of the list |
| `FrameRun.FrameMemory.InitCounter` | os/kernel/src/memory/mod.rs:43-45 | the counter becomes the length of the list |
| `FrameRun.FrameMemory.AllocFrames` | os/kernel/src/memory/mod.rs:66-69 | counter and list drop by the same amount, or out of memory |
| `FrameRun.FrameMemory.FreeFrames` | os/kernel/src/memory/mod.rs:73-76 | the counter grows by the length of the range and the list takes the range in or panics; for frames that are not free list and counter grow alike, without panic |
| `FrameLf.ChunksTile` | os/kernel/src/memory/frames_lf.rs:122-154 | the chunks are naturally aligned powers of two that follow each other from the start to the end of the range |
| `FrameLf.TilesExact` | os/kernel/src/memory/frames_lf.rs:122-154 | a frame lies in the range exactly when one chunk holds it |
| `FrameLf.ChunkCount` | os/kernel/src/memory/frames_lf.rs:122-154 | there are at most count / 2^max + 2 max chunks |
| `FrameLf.NoRounding` | os/kernel/src/memory/frames_lf.rs:218-226 | a power of two is not rounded up |
| `FrameLf.RoundUpPow2` | os/kernel/src/memory/frames_lf.rs:218-226 | the next power of two, less than twice the count; none for zero and past the word size |
| `FrameLf.RoundUpIff` | os/kernel/src/memory/frames_lf.rs:218-226 | there is an answer exactly when the count is not zero and some power of two from it on fits a word, and then it is the least such power |
| `FrameLf.LLFree.GetAt` | os/kernel/src/memory/frames_lf.rs:159-180 | llfree as a free set: an aligned chunk that is wholly free is taken |
| `FrameLf.LLFree.AllocAt` | os/kernel/src/memory/frames_lf.rs:159-180 | the chunk of the rounded size, or a panic |
| `FrameLf.LLFree.NextChunk` | os/kernel/src/memory/frames_lf.rs:135-147 | the halving loop finds the largest aligned power of two that fits |
| `FrameLf.LLFree.TakeChunk` | os/kernel/src/memory/frames_lf.rs:135-149 | one chunk is reserved at its full size, never rounded up |
| `FrameLf.LLFree.MarkReserved` | os/kernel/src/memory/frames_lf.rs:122-154 | exactly the frames of the range are taken, chunk by chunk; it panics exactly for a misaligned address, a zero count or a frame that is not free |
| `FrameInit.FilledCorrect` | os/kernel/src/memory/frames.rs:31-49 | the list becomes the maximal runs of the available frames except frame 0 |
| `FrameInit.FreeAll` | os/kernel/src/memory/frames.rs:31-49 | the loop over the available regions builds that list without panic |
| `FrameInit.ReserveAll` | os/kernel/src/memory/frames_lf.rs:39-109 | all frames below the limit minus the reserved ones, without panic |
| `FrameInit.SameStart` | os/kernel/src/memory/frames_lf.rs:93-109 | both allocators start with the same free frames for every finalized boot record |
| `FrameInit.SameStartAfterBoot` | os/kernel/src/memory/frames_lf.rs:39-74 | in particular after every boot run |
| `VmaMap.NeighboursSuffice` | os/kernel/src/memory/vma.rs:90-92 | looking at the two neighbours is the same as overlaps_with against every area |
| `VmaMap.AllocAtIff` | os/kernel/src/memory/vmm.rs:210-270 | alloc_at succeeds exactly when the request is non-empty, within its space and overlaps no area; it panics exactly when its end is not canonical |
| `VmaMap.AllocAtKeeps` | os/kernel/src/memory/vmm.rs:210-270 | a granted area is recorded beside all the others, which stay disjoint and in bounds |
| `VmaMap.FindGap` | os/kernel/src/memory/vmm.rs:280-353 | the lowest page where the request fits; none only if none fits; the overflow panic exactly when nothing fits and a candidate sum leaves the canonical range |
| `VmaMap.LookupIff` | os/kernel/src/memory/vmm.rs:640-651 | the lookup returns an area exactly when that area is recorded and holds the page |
| `Vmm.StepInv` | os/kernel/src/memory/vmm.rs:172-368 | every critical section keeps the areas disjoint and in bounds, and every mapped user page inside an area |
| `Vmm.RunInv` | os/kernel/src/memory/vmm.rs:172-368 | so does every interleaving of them with operations on other address spaces |
| `Vmm.TranslatedIsRecorded` | os/kernel/src/memory/vmm.rs:172-657 | in every run that starts without user pages, a user address that translates lies in a recorded area that the lookup finds |
| `UserAccess.MappedIsAccessible` | os/kernel/src/memory/vmm.rs:172-657 | in every run whose mappings carry user flags, on a space whose user half forbids nothing at the start, every user page that is mapped can be read and written from user mode |
| `Vmm.FoundByStart` | os/kernel/src/memory/vmm.rs:356-363 | looking up by start address finds an area exactly when it is recorded |
| `Vmm.AddressSpace.constructor` | os/kernel/src/memory/vmm.rs:113-123 | no areas |
| `Vmm.AddressSpace.AllocVma` | os/kernel/src/memory/vmm.rs:137-147 | granted exactly when there is room, at the page asked for or at the lowest fit; a panic exactly when the end is no canonical address; otherwise nothing changes |
| `Vmm.AddressSpace.PlaceFor` | os/kernel/src/memory/vmm.rs:143-146 | the page asked for, or the lowest fit; without a fit nothing, or the overflow panic, each exactly when due |
| `Vmm.AddressSpace.MapPages` | os/kernel/src/memory/pages.rs:106-124 | the pages of an area are mapped and no other page changes; without given frames each gets a frame of its own, otherwise the frame given for it; in a recorded area the invariant is kept |
| `Vmm.AddressSpace.MapFrames` | os/kernel/src/memory/vmm.rs:172-204 | refused exactly for an empty range, unequal lengths or a range outside the area; otherwise exactly the range is mapped, page by page to the frames given, whether the area is recorded or not |
| `Vmm.AddressSpace.MapPartial` | os/kernel/src/memory/vmm.rs:356-368 | panics unless the very area is recorded and holds the range; otherwise exactly the range is mapped, to frames of its own for the user |
| `Vmm.AddressSpace.MapFresh` | os/kernel/src/memory/vmm.rs:518-572 | pages of a recorded area are mapped with user flags to pairwise distinct frames, each free before and handed out now, and no other page changes, or out of memory |
| `Vmm.AddressSpace.UserAllocMapPartial` | os/kernel/src/memory/vmm.rs:534-572 | declined exactly when more is to be mapped than there is, or there is neither room nor a panic; otherwise an area at the page asked for or at the lowest fit, of which exactly the lower or upper part is mapped, with user flags and to distinct frames that were free |
| `Vmm.AddressSpace.MapAtEnd` | os/kernel/src/memory/vmm.rs:545-569 | the part of the area at its upper or lower end, mapped in that way |
| `Vmm.AddressSpace.UserAllocMapFull` | os/kernel/src/memory/vmm.rs:518-528 | declined exactly when there is neither room nor a panic; otherwise an area at the page asked for or at the lowest fit, all of whose pages are mapped with user flags to distinct frames that were free, and no other page changes |
| `Vmm.AddressSpace.HandleFault` | os/kernel/src/interrupt/interrupt_dispatcher.rs:227-247 | a fault is handled exactly in a stack, heap or anonymous area, where the page alone is mapped, with user flags and to a frame that was free; no assertion can fail |
| `Vmm.AddressSpace.HandlePage` | os/kernel/src/interrupt/interrupt_dispatcher.rs:227-247 | the same for the page of the address: mapped to a frame of its own exactly when the lookup finds a growable area |
| `Vmm.AddressSpace.UnmapVma` | os/kernel/src/memory/vmm.rs:655-657 | the pages of the area are unmapped, recorded areas stay recorded |
| `CopySpace.CopyBytes` | os/kernel/src/memory/vmm.rs:622-622 | bytes are copied to a place that holds none of them |
| `CopySpace.CopyPage` | os/kernel/src/memory/vmm.rs:605-625 | one page of the destination receives its bytes and nothing else changes |
| `CopySpace.CopyPages` | os/kernel/src/memory/vmm.rs:602-625 | the loop copies everything or stops at an unmapped page |
| `CopySpace.ZeroTail` | os/kernel/src/memory/vmm.rs:628-634 | the rest of the last page reads zero |
| `CopySpace.CopyToAddrSpace` | os/kernel/src/memory/vmm.rs:582-636 | panics exactly when the area is too small or a page is unmapped; otherwise destination byte i is source byte i, the rest of the last page is zero or as before, and no other byte of memory changed |
| `Pipe.StepInv` | os/kernel/src/naming/tmpfs.rs:410-613 | every atomic step of every thread keeps the invariant of the pipe |
| `Pipe.RunInv` | os/kernel/src/naming/tmpfs.rs:410-613 | so does every interleaving from the new pipe on |
| `Pipe.OneHolderPerSide` | os/kernel/src/naming/tmpfs.rs:410-452 | at most one reader and one writer session at any time |
| `Pipe.NoByteLost` | os/kernel/src/naming/tmpfs.rs:459-579 | delivered bytes followed by queued bytes are the accepted bytes, and the queue never exceeds its size |
| `Pipe.CounterShowsQueue` | os/kernel/src/naming/tmpfs.rs:376-383 | in every reachable state the counter is the queue length minus the enqueues not counted yet plus the dequeues not counted yet, modulo 2^64, with at most one of each |
| `Pipe.ReadReturnsStream` | os/kernel/src/naming/tmpfs.rs:459-520 | what a read has taken is a contiguous piece of the accepted stream |
| `Pipe.WriteAppends` | os/kernel/src/naming/tmpfs.rs:523-580 | what a write has put in is its buffer up to that point, at the end of the accepted stream |
| `Pipe.WriteReturns` | os/kernel/src/naming/tmpfs.rs:551-580 | a write that returns has put in its whole buffer, or there is no reader |
| `Pipe.ReadReturns` | os/kernel/src/naming/tmpfs.rs:459-520 | a read that returns has all the bytes it asked for, or has just seen no data: in its loop, or before it together with no writer |
| `Pipe.OpenReturns` | os/kernel/src/naming/tmpfs.rs:410-452 | an open that returns has found the other side open |
| `Pipe.ClosedIsNew` | os/kernel/src/naming/tmpfs.rs:583-613 | a pipe that both sides have closed is as new |
| `Pipe.NothingOldDelivered` | os/kernel/src/naming/tmpfs.rs:583-613 | after both sides have closed, nothing accepted earlier is ever delivered |
| `Pipe.EndOfFileIff` | os/kernel/src/naming/tmpfs.rs:459-520 | every read that returns without a byte does so at one of two exits: before its loop, and then the queue is empty if and only if no enqueue was counted since the read saw no data, that is if the queue was empty then and nothing was enqueued since; or in its loop, and then the queue is empty if and only if no writer is between its enqueue and its count |
| `Pipe.FirstExitIff` | os/kernel/src/naming/tmpfs.rs:474-480 | before the loop: seeing no data and then no writer is right if and only if no enqueue was counted in between |
| `Pipe.SecondExitIff` | os/kernel/src/naming/tmpfs.rs:502-509 | in the loop: seeing no data is right if and only if no enqueue is waiting to be counted, and always when there is no writer |
| `Pipe.WokenByWrapIff` | os/kernel/src/naming/tmpfs.rs:495-509 | a read that finds no data in its loop: there was no writer when its wait ended, if and only if the counter had not wrapped around then |
| `Pipe.EndOfFileSawNoWriter` | os/kernel/src/naming/tmpfs.rs:459-520 | every read that answers end of file has seen no writer, except when its wait ended on a counter that had wrapped around |
| `PipeRuns.EndOfFileTooSoon` | os/kernel/src/naming/tmpfs.rs:474-480 | an interleaving in which a writer comes, writes a byte and goes between the two looks, and the read answers end of file with that byte queued |
| `PipeRuns.EndOfFileInLoop` | os/kernel/src/naming/tmpfs.rs:502-509 | an interleaving in which a writer has enqueued a byte and not counted it when a read in its loop looks at the counter, and the read answers end of file with that byte queued |
| `PipeRuns.EndOfFileWithWriter` | os/kernel/src/naming/tmpfs.rs:495-509 | an interleaving in which the counter wraps around while a byte is taken before it is counted, and the next read answers end of file with the writer in the middle of its write |
| `WindowTree.InsertLeaves` | os/application/window_manager/src/window_tree.rs:25-40 | the new window becomes the right-hand neighbour of the old one, every other leaf stays |
| `WindowTree.InsertedAreSiblings` | os/application/window_manager/src/window_tree.rs:25-40 | and the two are each other's siblings |
| `WindowTree.SiblingSymmetric` | os/application/window_manager/src/window_tree.rs:42-68 | siblings are two different leaves and each is the other's |
| `WindowTree.RemoveExact` | os/application/window_manager/src/window_tree.rs:71-94 | exactly the given leaf goes when it has a sibling; nothing changes when it has none |
| `WindowTree.InsertThenRemove` | os/application/window_manager/src/window_tree.rs:25-94 | removing a window right after inserting it restores the tree |
| `WindowTree.SwapLeaves` | os/application/window_manager/src/window_tree.rs:96-130 | two leaves exchange their windows, the others keep theirs |
| `WindowTree.SwapTwice` | os/application/window_manager/src/window_tree.rs:96-130 | swapping twice restores the tree |
| `Workspace.ApplyInv` | os/application/window_manager/src/workspace.rs:51-284 | every operation succeeds, and windows, order and leaves stay the same set, each without duplicates and with the focused one in it |
| `Workspace.RunInv` | os/application/window_manager/src/workspace.rs:33-284 | so does every sequence of operations from a new workspace on |
| `Workspace.ForwardThenBackward` | os/application/window_manager/src/workspace.rs:197-284 | moving forward and back is the identity if and only if the window was not the last |
| `Workspace.LastMoveNotUndone` | os/application/window_manager/src/workspace.rs:197-284 | a run with two windows after which moving the last one forward and back has exchanged the two in the order |
| `Workspace.BackwardThenForward` | os/application/window_manager/src/workspace.rs:197-284 | moving backward and forward is the identity if and only if the window was not the first |
| `Workspace.FirstMoveNotUndone` | os/application/window_manager/src/workspace.rs:197-284 | a run with two windows after which moving the first one backward and forward has exchanged the two in the order |
| `Workspace.InsertThenClose` | os/application/window_manager/src/workspace.rs:51-195 | opening a window and closing it at once restores windows, order and tree |
| `Workspace.InsertExact` | os/application/window_manager/src/workspace.rs:51-60 | the new window comes right behind the given one in order and leaves, and the focus stays |
| `Workspace.CloseExact` | os/application/window_manager/src/workspace.rs:156-195 | exactly the focused window goes and its cyclic successor gets the focus; nothing happens to the only window or one without a sibling |
| `Workspace.FocusCycles` | os/application/window_manager/src/workspace.rs:62-85 | going on k times from position i focuses the window at position i + k, counted around the order |
| `Workspace.FocusThereAndBack` | os/application/window_manager/src/workspace.rs:62-110 | going on and going back undo each other, in both orders |
| `Workspace.FocusExact` | os/application/window_manager/src/workspace.rs:62-136 | a window that does not let go keeps the focus; otherwise the window at the position gets it, if there is one |
| `Workspace.FirstHit` | os/application/window_manager/src/workspace.rs:112-136 | the window chosen is hit and no earlier one in the order is; none only if none is hit |
| `Workspace.MoveForwardExact` | os/application/window_manager/src/workspace.rs:197-239 | the focused window moves one place up, or from the last place to the second, the others keep their order, and among the leaves exactly it and the next window change places |
| `Workspace.MoveBackwardExact` | os/application/window_manager/src/workspace.rs:241-284 | the mirror image, from the first place to the last but one |
| `Workspace.CursorAt` | os/application/window_manager/src/utils.rs:6-22 | the cursor at the first occurrence, or none |
| `Workspace.Desktop.constructor` | os/application/window_manager/src/workspace.rs:33-49 | one window; the collections agree exactly if the focused id is that window |
| `Workspace.Desktop.InsertWindow` | os/application/window_manager/src/workspace.rs:51-60 | the window is placed behind the given one in order and tree; fails exactly if there is none |
| `Workspace.Desktop.FocusNextWindow` | os/application/window_manager/src/workspace.rs:62-85 | the next window in cyclic order gets the focus |
| `Workspace.Desktop.FocusPrevWindow` | os/application/window_manager/src/workspace.rs:87-110 | the previous window in cyclic order gets the focus |
| `Workspace.Desktop.FocusWindowAt` | os/application/window_manager/src/workspace.rs:112-136 | the first window in order that contains the position gets the focus |
| `Workspace.Desktop.CloseFocusedWindow` | os/application/window_manager/src/workspace.rs:156-195 | closed exactly when it has a sibling and is not the only one; the cyclic successor gets the focus |
| `Workspace.Desktop.MoveFocusedWindowForward` | os/application/window_manager/src/workspace.rs:197-239 | swaps with the next window; the last one goes behind the first |
| `Workspace.Desktop.MoveFocusedWindowBackward` | os/application/window_manager/src/workspace.rs:241-284 | swaps with the previous window; the first one goes before the last |
| `Framing.BigEndianRoundTrip` | os/application/netperf/src/protocol.rs:32-43 | the length prefix is read back as written |
| `Framing.PrefixOrder` | os/application/netperf/src/protocol.rs:32-43 | the prefix has its most significant byte first: lengths are ordered as numbers the way prefixes are ordered as strings |
| `Framing.MissingInFrame` | os/application/netperf/src/protocol.rs:39-47 | whatever beginning of a frame has arrived, the receiver asks for no byte beyond it, and for none exactly when it is complete |
| `Framing.ByteStream.WriteAll` | os/application/netperf/src/protocol.rs:69-82 | the bytes go out in order however many are accepted at a time |
| `Framing.ByteStream.ReadExact` | os/application/netperf/src/protocol.rs:53-66 | the bytes come in in order however many are offered at a time |
| `Framing.ByteStream.SendMsg` | os/application/netperf/src/protocol.rs:29-36 | exactly one frame goes out |
| `Framing.ByteStream.RecvMsg` | os/application/netperf/src/protocol.rs:39-50 | exactly the message of the frame comes in and exactly its bytes are consumed |
| `Framing.Exchange` | os/application/netperf/src/protocol.rs:29-50 | a message sent is the message received, for every way of splitting writes and reads |
| `Netperf.StreamsDual` | os/application/netperf/src/netperf.rs:332-357 | the connect and accept loops are dual for any number of streams |
| `Netperf.ScriptsDual` | os/application/netperf/src/netperf.rs:163-273 | client and server programs are dual for every configuration |
| `Netperf.ReadsFrame` | os/application/netperf/src/protocol.rs:39-66 | whatever a waiting peer takes off the wire is a beginning of the very message its peer has for it |
| `Netperf.ReadKeeps` | os/application/netperf/src/protocol.rs:39-123 | a receive completes only with the peer's message for that point, and that message is expected |
| `Netperf.StepInv` | os/application/netperf/src/netperf.rs:163-273 | every write or read, and every bind, connect, arrival of a connection request and accept, keeps the two peers in agreement and accounts for every connection asked for |
| `Netperf.RunInv` | os/application/netperf/src/netperf.rs:163-273 | in every run no unexpected or undecodable message is received |
| `Netperf.ReceivesPeersMessage` | os/application/netperf/src/protocol.rs:91-123 | a completed receive yields the message the peer's program has at that very point |
| `Netperf.NoDeadlock` | os/application/netperf/src/netperf.rs:163-273 | as long as no connection was turned away some step is possible until both peers are through, even if a stream holds only one byte |
| `Netperf.Drained` | os/application/netperf/src/netperf.rs:163-273 | when both are through both directions are empty and every connection asked for was accepted |
| `Netperf.RunBounded` | os/application/netperf/src/netperf.rs:163-273 | the number of steps is bounded by the bytes of the session |
| `Netperf.SessionCompletes` | os/application/netperf/src/netperf.rs:163-273 | a run that cannot go on has finished on both sides if and only if no connection was turned away; then both streams are empty, the server has the options and, in reverse mode, the start signal, and the client has received exactly the acknowledgement, the stream ids 0, 1, .., n - 1 in order, the start signal if it sends, and the summary and the json of the results |
| `Netperf.ScriptSays` | os/application/netperf/src/netperf.rs:163-273 | what the two programs send is what the peers are to hear: the one that sends the benchmark is the one that waits for the start signal |
| `Netperf.CaughtUp` | os/application/netperf/src/netperf.rs:332-357 | a client that has read the message before a connection finds the server past sending it |
| `Netperf.NeverTurnedAway` | os/application/netperf/src/netperf.rs:332-357 | with several streams, or without TCP, every connection request finds the port listening, in every run |
| `Netperf.TurnedAwayIsEarly` | os/application/netperf/src/netperf.rs:176-178 | a connection is turned away only with a single TCP stream, and only before the server has bound its port |
| `Netperf.TurnedAwayRun` | os/kernel/src/network/mod.rs:289-339 | with a single TCP stream there is a run whose connection comes before the port is bound, and which never completes |
| `Netperf.CompletesIff` | os/application/netperf/src/netperf.rs:163-273 | every run that cannot go on is complete, if and only if the session does not use a single TCP stream |

## Left out

- TLB flushing, loading of the root register, `dump`, `map_io` and all logging: hardware or output.
- `set_flags`: the walk of unmapping over again, with flags written instead of entries cleared.
- The bits of page-table flags: a flag word is a number, of which only the bits for presence, writing and user access are told apart; an entry is unused exactly when address and flags are both zero.
- `reserve_block`, `find_free_block_at` and `alloc_block_at`: without callers.
- Paging.Machine.ClearEntry: with `free_physical`, a frame that is free already, a table or outside memory is excluded, because freeing it corrupts or stops the frame allocator.
- Paging.Machine.UnmapLevelOne: with `free_physical`, a frame mapped twice in the range is excluded, because it would be freed twice.
- Paging.Machine.UnmapSlot: with `free_physical`, a frame mapped twice among the pages reached is excluded, because it would be freed twice.
- Paging.Machine.UnmapTurn: with `free_physical`, a frame mapped twice among the pages reached is excluded, because it would be freed twice.
- Paging.Machine.UnmapInTable: with `free_physical`, the frames of the pages reached must be mapped once and not be tables or free, because each is freed where it is met.
- AddressSpaces.SpaceTable.UnmapRange: with `free_physical`, the frames of the pages reached must have been handed out and be mapped once in the space.
- Vmm.AddressSpace.UnmapVma: with `free_physical`, the frames of the pages reached must have been handed out and be mapped once; the area lies in the lower half of the addresses.
- AddressSpaces.SpaceTable.MapRange: after running out of memory in the middle of a range nothing is stated, since the kernel stops.
- FrameLf.LLFree.GetAt: llfree itself is a set of free frames; which frame it picks without a given start, its trees and its per-core state are not modelled.
- The lock-free back end's effect on the frame counter: it may take more frames than counted, because it rounds up.
- `shm.rs`, the tag bytes of areas, `access_ok` and the user copy routines: easy members.
- `kernel_map_devm_identity` and `kernel_alloc_map_identity`: compositions of the operations modelled.
- `Drop for VirtualAddressSpace`: repeated unmapping as modelled.
- VmaMap.FindGap: an area added between the search and the insertion makes `alloc_at` refuse or accept as it does for any page; the lowest-fit statement is for a call without interference.
- CopySpace.CopyBytes: the destination holds no source byte. The copy goes through two different mappings, so what it does with memory behind both depends on its direction.
- CopySpace.CopyPage: the frames of the destination are distinct and hold no source byte.
- CopySpace.CopyPages: the frames of the destination are distinct and hold no source byte.
- CopySpace.CopyToAddrSpace: page tables are fixed during the copy, and destination frames are distinct and hold no source byte.
- Pipe.RunInv: safety only; wake-ups, the open epoch and prompt end of file depend on wait queues. The lock-free queue is a linearizable bounded queue, and every session is used by the thread that opened it.
- Regular files, directories, path lookup and handles of the temporary file system: easy members.
- Window contents, geometry, merging of rectangles, drawing and scaling.
- Netperf.NoDeadlock: connection requests arrive, in any order with everything else, and are answered at once; packet loss, retransmission, benchmark traffic, statistics and the server's loop over clients are left out.
- Netperf.ScriptsDual: the two programs are the sequences of their acts on the control channel; the loops over sockets and worker threads around them are not modelled.
- The check of the fault handler that the frame allocator is not locked, and memory accounting.
- The serializer: any pair of functions that returns each message of the session unchanged and fits the length prefix.
- Device drivers, scheduler, boot sequence and the remaining applications.
