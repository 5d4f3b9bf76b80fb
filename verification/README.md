# VaultOS kernel: a verified model

VaultOS is a small kernel whose state lives in an encrypted database. This project models the
parts of its C kernel that carry state over long runs, in place where the source works in place,
and proves what they are for:

- **B-tree index** (`BTreeModel`, `BTreeTheorems`, `BTreeRuns`, `BTreeIndex`). The in-place nodes compute a
  value tree; the value tree refines a finite map over every run, and scans in key order.
- **Memory** (`Bitmap`, `Pmm`, `PageTable`, `PageWalk`, `PageRange`, `Paging`, `Teardown`, `KernelSpace`,
  `UserSpace`, `HeapModel`, `HeapLinks`, `HeapSteps`, `Heap`, `HeapRuns`, `HeapExpand`). Over every run of the page allocator each page is
  free or in exactly one live allocation; page tables stay a tree and translate exactly what was mapped; any
  number of user spaces, created, changed and torn down in any order, give back every page and leave each other
  and the kernel's space alone; every address of the first kernel space has its exact translation;
  the heap's linked headers tile it over every run, an allocation keeps its place and its bytes until it is
  named again, and a heap that grows is backed by the frames it took.
- **Capabilities** (`CapModel`, `Capability`). A state machine of create, grant, delegate, revoke and check
  with a recursive cascade and a validation cache.
- **Crypto** (`Sha256`, `Hmac`, `AesField`, `Aes`, `AesCipher`, `AesCbc`). Streaming SHA-256 is the one-shot
  hash for every cutting of the message, the precomputed HMAC is RFC 2104, AES decryption undoes
  encryption for every key schedule, and with it CBC and padding.
- **Encrypted records and queries** (`Bytes`, `RecordFormat`, `RecordSerde`, `Database`, `Store`, `Filter`, `Query`,
  `Insertion`). Serializing, padding, encrypting, sealing and indexing together are a plain map from row ids to records, and
  16 tables with shared buffers and one row counter are a list of such maps, on which SELECT, INSERT, DELETE and
  UPDATE have their relational meaning and leave their audit rows.
- **Scheduler and messages** (`SchedulerModel`, `Scheduler`, `Ipc`). A round of the ready queue runs every
  process once; the message ring is a list from which messages are taken anywhere.

Conventions: page and block addresses, keys and counters are `nat` with the 64-bit wrap-around
written out where the source can reach it; bytes, page-table entries and rights are bit vectors. Arrays
that are inline in a C struct are sequence fields, free-standing buffers are Dafny arrays. NULL is
`None`, a null pointer in memory is 0. The initial vectors, the clock, the success of allocations and the
MAC of a capability are parameters or arbitrary values.

## Where the code and an expectation differ

The model follows the code. Each difference has an exact condition.

- `btree_insert` of a key that a leaf already holds moves larger keys before it notices
  (kernel/db/btree.c:76-89): with two or more larger keys in the leaf one of them is stored twice and the
  last one is lost. `BTreeTheorems.InsertIsMapUpdate` says when exactly, `BTreeRuns.DuplicateInsertLosesKey` shows
  it, and `BTreeRuns.DisciplinedRun` shows that fresh row ids avoid it.
- kernel/db/btree.c:100-101 compares the key with the slot after the last one. `BTreeIndex` reads that slot only
  where it is inside the array (the source also reads one past it when the node has 63 keys) and proves
  that a slot past the last key never matches.
- `cap_revoke` is documented to invalidate all descendants (kernel/cap/capability.h:24). For a process other
  than the kernel it only reaches those it owns: `CapModel.RevokesDescendants`, `CapModel.GrantSurvivesRevoke`.
- A cached answer of `cap_validate` is the uncached one while no failed validation is cached. That holds in
  every reachable state, because the kernel only validates table entries: `Capability.CachedIsUncached`,
  `Capability.CachedFailureLasts`, `Capability.CapSystem.Validate`.
- `schedule` does nothing while the running process heads the queue, which is how `scheduler_start` leaves it
  (kernel/proc/scheduler.c:47, 98-102): `SchedulerModel.Stuck`, `SchedulerModel.RoundExactly`.
- `kmalloc` of more than 2^64 - 16 bytes rounds to 0 and returns an empty block: `HeapModel.Align16Enough`. `krealloc`
  to such a size copies the old payload into it and over the header behind it, and `kzalloc` clears beyond it.
  `HeapSteps.OverrunsExactly` and `HeapSteps.ZeroOverrunsExactly` say when exactly, `HeapRuns.OverrunExample` shows
  it on a heap that has just been set up, and `Heap.Heap.Realloc`, `Heap.Heap.Zalloc` and `HeapRuns.RunTorn` carry
  it through one call and through every run. The overrun is exact to the byte. That no block list is linked
  afterwards belongs to the model's memory, which is typed by its last write: in C a payload that equals the
  header it overwrites would leave the list intact.
- `vmm_init` maps the first GiB of physical memory at 0xFFFFFFFF92000000 and then the frame buffer at
  0xFFFFFFFFC0000000, inside that range: from physical address 0x2E000000 on, for the length of the frame buffer,
  the direct map leads to the frame buffer instead (kernel/mm/vmm.c:46-65). `KernelSpace.DirectMap` says where
  exactly, `KernelSpace.BufferShadows` shows it.
- `heap_expand` checks the size before it rounds to pages and in wrapping arithmetic, and still lets through
  exactly the requests that fit: `Heap.PagesExact`, `HeapExpand.Expand`.
- `heap_free` counts the headers of all blocks but one as free: `Heap.Heap.FreeBytes`.
- `pmm_init` counts a page twice when usable regions overlap: `Pmm.TotalIsUnion`, `Pmm.Pmm.constructor`,
  `Pmm.OverlapCountedTwice`.
- `paging_map_page` lets flags add address bits to the frame: `Paging.MappedFrame`, `Paging.FlagsMoveFrame`.
- `db_update_encrypted` deletes before it inserts, so a row whose changed record does not fit is lost:
  `Database.Table.Update`, `Query.Update`. Records without blobs and with at most 15 fields always fit:
  `RecordFormat.Fits`; with 16 fields they need not: `RecordFormat.SixteenTextsDoNotFit`.
- UPDATE of a column beyond the record's own fields is lost when the record is stored: `Query.AssignedField`,
  `Query.SecondColumnLost`. Rows that INSERT and the audit log write have a field for every column, and every
  statement keeps that, so the case does not arise for them: `Insertion.Insert`, `Insertion.DeleteFull`,
  `Insertion.UpdateFull`, `Insertion.FullAssigned`.
- DELETE and UPDATE log to the audit table, so the table they name ends as the statement says exactly when it is
  not that table, or nothing could be logged: `Query.Delete`, `Query.AuditTableNotEmptied`, `Query.Update`.
- `db_insert_record` clears its plaintext buffers only when the record was stored; a record that does not fit
  leaves its header there, and one for which memory fails all of its bytes: `Database.Table.Encrypt`.

## Model

| member | source | states |
|---|---|---|
| `BTreeTheorems.FlatSorted` | kernel/db/btree.c:6-32 | the in-order contents of every well-formed tree are strictly ascending and lie between its bounds |
| `BTreeTheorems.SearchIsLookup` | kernel/db/btree.c:20-36 | searching a well-formed tree returns what its finite map of non-null values holds under the key |
| `BTreeTheorems.SplitFlat` | kernel/db/btree.c:38-71 | splitting a full child changes no entry and no order of the in-order contents |
| `BTreeTheorems.SplitOrdered` | kernel/db/btree.c:38-71 | after a split the parent is still ordered, within the same bounds, and the promoted median separates the halves |
| `BTreeTheorems.InsertRootOk` | kernel/db/btree.c:110-131 | an insertion that does not shift a leaf apart keeps the tree well formed and puts exactly the entry into its contents |
| `BTreeTheorems.InsertIsMapUpdate` | kernel/db/btree.c:73-131 | btree_insert leaves a well-formed tree exactly when it does not end at a leaf that holds the key below two larger ones, and then updates the map at exactly that key |
| `BTreeTheorems.ClobberBreaks` | kernel/db/btree.c:76-89 | in the excluded case the leaf holds one key twice, so no bounds order the tree |
| `BTreeTheorems.DeleteIsMapRemoval` | kernel/db/btree.c:134-162 | btree_delete keeps the tree well formed and removes exactly the key from the map, whether a leaf drops it or an internal node nulls its value |
| `BTreeTheorems.FoundIsMember` | kernel/db/btree.c:134-162 | btree_delete reports success exactly when the key is in the tree, alive or nulled |
| `BTreeRuns.ScanListsLive` | kernel/db/btree.c:164-182 | a scan reports exactly the live pairs, in strictly ascending key order |
| `BTreeRuns.HeightBound` | kernel/db/btree.c:38-71 | internal nodes that stay half full bound the height by the number of keys |
| `BTreeRuns.StepGood` | kernel/db/btree.c:73-162 | every operation that does not shift a leaf apart keeps the tree well formed and half full and acts on the finite map |
| `BTreeRuns.RunRefinesMap` | kernel/db/btree.c:110-162 | every safe run from btree_init is a run of the finite map and keeps the tree well formed, with at least 31 keys in internal nodes below the root |
| `BTreeRuns.RunObservesMap` | kernel/db/btree.c:20-36 | in every reachable state a search returns what the map holds and a scan lists the map |
| `BTreeRuns.RunHeight` | kernel/db/btree.c:110-131 | no reachable tree is more than 14 levels high |
| `BTreeRuns.CountStep` | kernel/db/btree.c:129-155 | the counter stays the number of live keys exactly under insertions of absent keys and deletions that meet a live key or none |
| `BTreeRuns.DuplicateInsertLosesKey` | kernel/db/btree.c:76-89 | the leaf 1, 2, 3, 4 becomes 1, 2, 2, 3 when key 1 is inserted again |
| `BTreeRuns.DisciplinedRun` | kernel/db/btree.c:129-155 | with fresh keys and deletions of live keys only, every run is safe, refines the map, and the 64-bit counter is the number of live keys |
| `BTreeIndex.ShiftLarger` | kernel/db/btree.c:76-82 | the leaf scan moves the larger keys and values up by one place and stops at the first key that is not larger |
| `BTreeIndex.InsertInSlots` | kernel/db/btree.c:73-92 | the leaf case on the slot arrays: the new slots are those of the value-level leaf insertion |
| `BTreeIndex.Node.Search` | kernel/db/btree.c:20-32 | the in-place search returns what the value tree holds |
| `BTreeIndex.Node.SplitChild` | kernel/db/btree.c:38-71 | moving slots and children in place yields exactly the split of the value tree, on disjoint nodes |
| `BTreeIndex.Node.InsertNonfull` | kernel/db/btree.c:73-108 | the in-place insertion below a node yields exactly the insertion into the value tree |
| `BTreeIndex.Node.InsertAt` | kernel/db/btree.c:96-107 | after a split the promoted median is updated or the right half descended into; the slot past the last key never matches |
| `BTreeIndex.Node.Delete` | kernel/db/btree.c:134-162 | the in-place deletion yields exactly the deletion from the value tree |
| `BTreeIndex.Node.Scan` | kernel/db/btree.c:164-178 | the callback sees the live pairs of the subtree in order |
| `BTreeIndex.BTree.constructor` | kernel/db/btree.c:14-18 | an empty, well-formed tree with count 0 |
| `BTreeIndex.BTree.Search` | kernel/db/btree.c:34-36 | a search returns the value the finite map holds, or nothing |
| `BTreeIndex.BTree.Insert` | kernel/db/btree.c:110-131 | the new tree, height and counter are those of the run model |
| `BTreeIndex.BTree.GrowRoot` | kernel/db/btree.c:113-125 | a full root becomes the split child of a new root; nothing else changes |
| `BTreeIndex.BTree.Delete` | kernel/db/btree.c:134-162 | the new tree and counter are those of the run model, and the result says whether the key was met |
| `BTreeIndex.BTree.Scan` | kernel/db/btree.c:180-182 | the scan lists exactly the map in strictly ascending key order |
| `Bitmap.SetOne` | kernel/lib/bitmap.h:6-8 | setting one bit of the right word changes no other bit of the whole bitmap |
| `Bitmap.ClearOne` | kernel/lib/bitmap.h:10-12 | clearing one bit of the right word changes no other bit of the whole bitmap |
| `Bitmap.Set` | kernel/lib/bitmap.h:6-8 | setting a bit takes exactly that page out of the clear ones |
| `Bitmap.Reset` | kernel/lib/bitmap.h:10-12 | clearing a bit adds exactly that page to the clear ones |
| `Bitmap.SetRange` | kernel/lib/bitmap.h:19-22 | setting a range takes exactly the range out of the clear pages |
| `Bitmap.ResetRange` | kernel/lib/bitmap.h:25-28 | clearing a range adds exactly the range to the clear pages |
| `Bitmap.FindClear` | kernel/lib/bitmap.h:31-36 | the first clear bit at or above the start, or none exactly when there is none |
| `Bitmap.FindClearRange` | kernel/lib/bitmap.h:39-53 | the lowest place at or above the start where the wanted number of clear bits fits, or none exactly when there is none; zero bits never fit |
| `Pmm.TotalIsUnion` | kernel/mm/pmm.c:33-51 | the sum of the region sizes is the number of usable pages exactly when no regions overlap |
| `Pmm.Pmm.constructor` | kernel/mm/pmm.c:22-87 | after pmm_init total minus used is the number of free pages exactly when the usable regions are disjoint; the first MiB and the kernel are not free |
| `Pmm.Pmm.FreeRegions` | kernel/mm/pmm.c:33-51 | the loop over the memory map frees exactly the pages of the usable regions and sums their sizes |
| `Pmm.Pmm.Reserve` | kernel/mm/pmm.c:68-81 | a reservation loop takes its pages out of the free ones and counts each page that was free once |
| `Pmm.Pmm.AllocPage` | kernel/mm/pmm.c:89-98 | the lowest free page from page 256 on leaves the free pages, or 0 exactly when there is none; this is the step of the run model |
| `Pmm.Pmm.FreePage` | kernel/mm/pmm.c:100-106 | a used page below the highest one becomes free, the counters keep agreeing, and for a live page this is the step of the run model |
| `Pmm.Pmm.AllocPages` | kernel/mm/pmm.c:108-117 | the lowest run of free pages from page 256 on leaves the free pages; it fails exactly when no run is long enough; this is the step of the run model |
| `Pmm.Pmm.FreePages` | kernel/mm/pmm.c:119-123 | the pages become free; the counters keep agreeing exactly when none was free and all lie below the highest page; for a live allocation this is the step of the run model |
| `Pmm.Pmm.FreeCount` | kernel/mm/pmm.c:126-126 | the reported number is the number of clear bits |
| `Pmm.LowestUnique` | kernel/mm/pmm.c:108-117 | there is one lowest run, so the allocation step is determined |
| `Pmm.StepPartition` | kernel/mm/pmm.c:89-123 | an allocation of the lowest run, a failed one and a release keep every page free or in exactly one live allocation |
| `Pmm.RunPartition` | kernel/mm/pmm.c:89-123 | in every run each page that was free at the start is free or in exactly one live allocation, and no other page is either |
| `Pmm.Serve` | kernel/mm/pmm.c:89-123 | running any requests against the bitmap gives the state of the run model, with that partition and agreeing counters |
| `Pmm.OverlapCountedTwice` | kernel/mm/pmm.c:33-51 | two usable regions that share a page are counted as four pages and are three |
| `PageTable.TableEntryFacts` | kernel/mm/paging.c:40-46 | the entry of a new table is present, is no 2 MiB page and points to the table |
| `PageTable.LeafEntryExact` | kernel/mm/paging.c:60-60 | an entry holds the wanted frame exactly when the flags set no address bit of their own |
| `PageTable.SamePageIndices` | kernel/mm/paging.c:52-60 | two addresses share their page exactly when their four table indices agree |
| `PageWalk.TranslateIsWalk` | kernel/mm/paging.c:81-100 | in a tree of tables the translation follows the table path and then one entry |
| `PageWalk.LinkTree` | kernel/mm/paging.c:40-46 | linking a new table keeps the tables a tree without sharing |
| `PageWalk.LinkTranslate` | kernel/mm/paging.c:40-46 | linking an empty table changes no translation |
| `PageWalk.StoreTranslate` | kernel/mm/paging.c:60-76 | writing a last-level entry changes the translation of exactly one page |
| `Paging.Paging.AllocTable` | kernel/mm/paging.c:32-37 | a zeroed table on a page that was free, or none when the allocator has none from page 256 on |
| `Paging.Paging.GetOrCreate` | kernel/mm/paging.c:40-46 | the table behind an entry, linked if absent; no translation changes, the space stays a tree, and the free pages and the tables together stay the same pages |
| `Paging.Paging.MapPage` | kernel/mm/paging.c:52-61 | the page gets the entry for the frame and flags, no other page changes its translation, the tables stay a tree, only tables on its path are written, and new ones come from the free pages; where a table cannot be allocated no translation changes |
| `Paging.MappedFrame` | kernel/mm/paging.c:60-60 | the mapped page translates to the frame plus offset exactly when the flags set no address bit outside the frame |
| `Paging.FlagsMoveFrame` | kernel/mm/paging.c:60-60 | a flag word with an address bit maps another frame |
| `Paging.LinkGrew` | kernel/mm/paging.c:40-46 | a linked table is the only new one of the space, and the page that left the free ones |
| `Paging.EmptySpace` | kernel/mm/paging.c:48-50 | a zeroed root is a space with no other table and no translation |
| `Paging.Paging.CreateSpace` | kernel/mm/paging.c:48-50 | a new space on a page that was free, with no other table and no translation |
| `Paging.Paging.UnmapPage` | kernel/mm/paging.c:63-79 | afterwards the page has no translation and every other page has the one it had |
| `Paging.Paging.VirtToPhys` | kernel/mm/paging.c:81-100 | the walk returns the translation, or 0 where there is none |
| `Paging.Paging.MapRange` | kernel/mm/paging.c:102-108 | after the first n pages of the range, and n is all of them unless a table cannot be allocated, every address translates as the n mappings say, in 64-bit arithmetic, the last one counting |
| `PageRange.NextIndices` | kernel/mm/paging.c:102-108 | going to the next page steps the four indices like the digits of a counter |
| `PageRange.RunPages` | kernel/mm/paging.c:102-108 | two pages of a range are the same page exactly when the range went round the address space |
| `PageRange.RangeInside` | kernel/mm/paging.c:102-108 | each page of a range translates to its own frame with the page offset |
| `PageRange.RangeOutside` | kernel/mm/paging.c:102-108 | an address in no page of the range keeps its translation |
| `PageRange.RangeAt` | kernel/mm/paging.c:102-108 | a range translates exactly the addresses that lie fewer pages behind its start than it has, around the end of the address space |
| `PageRange.RangeFrames` | kernel/mm/paging.c:102-108 | a run of frames mapped with plain flags: page i of the range translates to frame i, byte for byte |
| `Paging.Paging.CreateUserSpace` | kernel/mm/vmm.c:95-111 | a new space that reaches the tables of the upper half as the kernel does, has no table of its own but its root, translates the upper half as the kernel does and nothing in the lower half; the kernel space is unchanged |
| `Paging.OtherSpace` | kernel/mm/paging.c:52-79 | an operation leaves every space that shares none of the written tables a tree with the same translations |
| `Teardown.FreePageTables` | kernel/mm/paging.c:121-124 | the innermost loop frees exactly the page tables below a directory |
| `Teardown.FreeDirectories` | kernel/mm/paging.c:117-126 | the middle loop frees exactly the directories below a pointer table and what lies below them |
| `Teardown.FreeLower` | kernel/mm/paging.c:113-128 | the outer loop frees exactly the tables below the lower half of the root |
| `Teardown.UpperStays` | kernel/mm/paging.c:113-113 | no table reached through the upper half is among the freed ones |
| `Teardown.Destroy` | kernel/mm/paging.c:110-130 | the free pages grow by exactly the lower-half tables and the root, none of which was free, the used pages fall by their number, and every upper-half table and every page that is no table of the space stays as it was |
| `KernelSpace.Init` | kernel/mm/vmm.c:14-87 | the first kernel space translates every address as its four ranges and its heap pages say, the later over the earlier; the heap frames are different pages that were free |
| `KernelSpace.HeapBacked` | kernel/mm/vmm.c:68-79 | the first heap pages translate to their frames, byte for byte |
| `KernelSpace.DirectMap` | kernel/mm/vmm.c:42-65 | every address of the direct map: it translates to its own physical page exactly when the frame buffer does not cover it or lies at just that page |
| `KernelSpace.BufferShadows` | kernel/mm/vmm.c:42-65 | with a 3 MiB frame buffer the direct map of physical address 0x2E000000 leads to the frame buffer |
| `UserSpace.SharesPaired` | kernel/mm/vmm.c:99-108 | a new user space has a table in common with the kernel only by the same path through the upper half |
| `UserSpace.KernelKept` | kernel/mm/paging.c:52-79 | a change in the lower half of a user space leaves the kernel space a tree of allocated tables with the same translations, and the two spaces paired |
| `UserSpace.LowerConserved` | kernel/mm/paging.c:40-61 | the free pages and the own tables of the user space together stay the same pages |
| `UserSpace.Apply` | kernel/mm/paging.c:52-79 | mapping or unmapping a lower-half page of a user space keeps both spaces in order, the kernel translations and the pages |
| `UserSpace.DestroyKeeps` | kernel/mm/paging.c:110-130 | none of the tables freed with a user space is the kernel space's |
| `UserSpace.ChangeKeeps` | kernel/mm/paging.c:52-79 | a change in the lower half of one user space leaves any number of other spaces as they were, pairwise paired, and loses no page |
| `UserSpace.CreateJoins` | kernel/mm/vmm.c:95-111 | a new user space shares with every other one only the upper half of the kernel |
| `UserSpace.DestroyOthers` | kernel/mm/paging.c:110-130 | tearing one user space down leaves all others in order and frees exactly its own tables |
| `UserSpace.Operate` | kernel/mm/vmm.c:95-115 | creating, changing or tearing down one user space keeps the translations of every other space |
| `UserSpace.Serve` | kernel/mm/vmm.c:95-115 | any number of user spaces in any order: any two share only the upper half of the kernel, the kernel translations stay, and the free pages and the own tables together stay the same pages |
| `UserSpace.Lifetime` | kernel/mm/vmm.c:95-115 | a user space that is created, changed in its lower half any number of times and torn down leaves the kernel space with all its translations, and every page it took is free again |
| `HeapModel.Align16Enough` | kernel/mm/heap.c:52-53 | rounding to 16 bytes gives at least the wanted size exactly up to 2^64 - 16 |
| `HeapModel.PayloadsDisjoint` | kernel/mm/heap.c:19-25 | payloads of different blocks, and payloads and headers, never overlap |
| `HeapModel.TakeKeeps` | kernel/mm/heap.c:59-78 | an allocation takes exactly the found block, keeps the blocks coalesced, adds its size to the used bytes and moves no other block |
| `HeapModel.ReleaseKeeps` | kernel/mm/heap.c:101-116 | a free merges the block with its free neighbours only, keeps the blocks coalesced, subtracts its size and moves no other block |
| `HeapModel.GrowKeeps` | kernel/mm/heap.c:158-184 | an expansion moves no block, keeps the used bytes and the coalescing, and moves the end by exactly what was added |
| `HeapLinks.SplitLinked` | kernel/mm/heap.c:63-76 | the pointer updates of a split leave the headers linked both ways over exactly the new blocks |
| `HeapLinks.MergeLinked` | kernel/mm/heap.c:101-116 | the pointer updates of a merge leave the headers linked both ways over exactly the new blocks |
| `HeapLinks.AppendLinked` | kernel/mm/heap.c:158-172 | linking a new last block leaves the headers linked both ways over exactly the new blocks |
| `HeapLinks.ReleaseSteps` | kernel/mm/heap.c:104-116 | merging with the next block and then with the one before is the merge of the whole free stretch |
| `HeapLinks.TakeOwned` | kernel/mm/heap.c:59-78 | an allocation adds exactly the taken payload to the bytes owned by live blocks |
| `HeapLinks.ReleaseOwned` | kernel/mm/heap.c:101-116 | a free removes exactly the payload of the freed block from the owned bytes |
| `HeapLinks.GrowOwned` | kernel/mm/heap.c:158-184 | an expansion changes no ownership |
| `Heap.Heap.constructor` | kernel/mm/heap.c:31-47 | one free block over the first MiB |
| `Heap.Heap.FindFit` | kernel/mm/heap.c:55-81 | following next pointers finds the lowest free block that is large enough, or none |
| `Heap.Heap.Malloc` | kernel/mm/heap.c:49-85 | it fails exactly for size 0 or when no free block fits; otherwise the first fit is taken and no live byte changes |
| `Heap.Heap.Free` | kernel/mm/heap.c:94-117 | the headers then describe the block sequence with the block and its free neighbours merged; no byte changes |
| `Heap.Heap.Realloc` | kernel/mm/heap.c:119-134 | it overruns the block it took exactly in the case of the model, and then no list is linked or the copy left the heap; otherwise the payload keeps its bytes in place or in the new block, every other live byte stays, failure changes nothing, and failure is exactly a size of 0 or no fit |
| `HeapSteps.OverrunsExactly` | kernel/mm/heap.c:119-134 | krealloc copies more than the new block holds exactly for a size above 2^64 - 16, a block that is not empty, and a first free block that is smaller than it or is split |
| `HeapSteps.OverrunTears` | kernel/mm/heap.c:129-131 | a copy past the end of a payload destroys the header behind it, and in memory typed by its last write no block list at all is linked then |
| `HeapSteps.ZeroOverrunsExactly` | kernel/mm/heap.c:88-92 | kzalloc clears more than its block holds exactly for a size above 2^64 - 16 on a heap with a free block |
| `Heap.Heap.Zalloc` | kernel/mm/heap.c:88-92 | it overruns exactly in that case; otherwise it is kmalloc, the bytes asked for are zero and no other live byte changes |
| `HeapExpand.Back` | kernel/mm/heap.c:145-156 | the frames taken for the heap are a run of free pages, free no longer, and the pages behind the heap translate to them in order |
| `HeapExpand.Expand` | kernel/mm/heap.c:136-189 | it is refused exactly when the heap would leave its address range or no run of free pages is long enough; a heap that grew does so by whole pages, backed in order by frames that were free, no other address changes its translation and no owned byte changes |
| `Heap.PagesExact` | kernel/mm/heap.c:139-146 | the check before rounding, in wrapping arithmetic, lets through exactly the requests that fit |
| `Heap.Heap.Store` | kernel/mm/heap.c:19-25 | a write by the owner of a payload byte disturbs no header |
| `Heap.Heap.UsedBytes` | kernel/mm/heap.c:191-191 | the used bytes are the sum of the sizes of the live blocks |
| `Heap.Heap.FreeBytes` | kernel/mm/heap.c:192-192 | the reported free bytes are the free payload and the headers of all blocks but one |
| `Heap.HeapSize` | kernel/mm/heap.c:191-192 | every byte of the heap is live payload, free payload or header |
| `HeapRuns.StepSound` | kernel/mm/heap.c:49-189 | every operation, reallocation and cleared allocation included, keeps the blocks tiling the heap, coalesced and within the address range, unless it tears the list |
| `HeapRuns.RunAccounts` | kernel/mm/heap.c:49-192 | after any run that tears nothing live bytes, free bytes and headers add up to the heap |
| `HeapRuns.RunTorn` | kernel/mm/heap.c:119-134 | a run tears the list exactly when one of its reallocations or cleared allocations overruns |
| `HeapRuns.OverrunExample` | kernel/mm/heap.c:119-134 | the first 16 bytes allocated on a fresh heap, grown to 2^64 - 1 bytes, tear the list |
| `HeapRuns.RunLive` | kernel/mm/heap.c:49-189 | over any run that tears nothing an allocation that no operation names stays live, at its address and with its size |
| `HeapRuns.ServeOne` | kernel/mm/heap.c:49-189 | one operation on the headers in memory is one step of the model and changes no live byte but those of the block it names |
| `HeapRuns.Serve` | kernel/mm/heap.c:49-189 | any run on the headers in memory is the run of the model, and an allocation that no operation names keeps its place and its bytes |
| `CapModel.RightsShrink` | kernel/cap/capability.c:124-138 | along any grant chain the object stays the same, rights only shrink, and every ancestor may grant |
| `CapModel.CascadeRound` | kernel/cap/capability.c:149-154 | one round of the cascade loop, on the table as the earlier rounds left it, adds exactly the cascade of that child |
| `CapModel.CascadeExact` | kernel/cap/capability.c:140-157 | the cascade is exactly the target and the descendants reached from it through unrevoked capabilities the revoker may revoke |
| `CapModel.RevokesDescendants` | kernel/cap/capability.c:140-157 | the revoked set stays closed under descendants exactly when the revoker may revoke every unrevoked descendant of the target |
| `CapModel.KernelRevokesDescendants` | kernel/cap/capability.c:140-157 | after a revocation by pid 0 everything derived from a revoked capability, at any distance, is revoked |
| `CapModel.GrantSurvivesRevoke` | kernel/cap/capability.c:124-157 | a capability granted to another process stays in force when the granter revokes its own |
| `CapModel.InsertInv` | kernel/cap/capability.c:60-78 | a fresh capability without a parent, or below one that may grant it, keeps the invariant of the table |
| `CapModel.DelegateInv` | kernel/cap/capability.c:159-169 | a delegation keeps every seal valid and every derivation intact |
| `CapModel.StepInv` | kernel/cap/capability.c:60-169 | every operation keeps all entries sealed and all derivations intact |
| `CapModel.RunInv` | kernel/cap/capability.c:60-169 | in every reachable state each parent is older, inserted, of the same object, may grant and has all rights of the child; if only pid 0 revokes, everything derived from a revoked capability, at any distance, is revoked |
| `Capability.CachedIsUncached` | kernel/cap/capability.c:80-105 | for a sealed capability the cached answer is the uncached test |
| `Capability.CachedFailureLasts` | kernel/cap/capability.c:84-102 | a cached failure for the same id decides until it is 1000 ticks old |
| `Capability.CapSystem.constructor` | kernel/cap/capability.c:33-44 | cap_init leaves one sealed system capability of pid 0 |
| `Capability.CapSystem.Insert` | kernel/cap/cap_table.c:13-23 | the capability goes to the slot of its id unless the table is full or the id does not fit |
| `Capability.CapSystem.CreateRoot` | kernel/proc/process.c:58-60 | creating and inserting a capability succeeds exactly while ids reach at most 1024 |
| `Capability.CapSystem.Validate` | kernel/cap/capability.c:80-105 | the answer, the new cache, and exactly when the cache stays free of failures |
| `Capability.CapSystem.ValidateEntry` | kernel/cap/capability.c:80-105 | a table entry validates exactly when it is not revoked |
| `Capability.CapSystem.Check` | kernel/cap/capability.c:107-122 | a process other than the kernel is granted access exactly when some valid table capability of its own grants the rights, at whatever time |
| `Capability.CapSystem.Grant` | kernel/cap/capability.c:124-138 | the new table is that of the model, and each error code is returned exactly in its case |
| `Capability.CapSystem.Invalidate` | kernel/cap/capability.c:27-31 | afterwards the cache does not answer for the id and nothing else changed |
| `Capability.CapSystem.Delegate` | kernel/cap/capability.c:159-169 | the new table is that of the model, each error code is exact, and the cache no longer answers for the capability |
| `Capability.CapSystem.Revoke` | kernel/cap/capability.c:140-157 | it terminates, revokes exactly the cascade, returns each code exactly in its case, and drops every revoked capability from the cache |
| `Sha256.ZeroCountLeast` | kernel/crypto/sha256.c:100-111 | the padding uses the smallest number of zero bytes that reaches a block boundary |
| `Sha256.Context.constructor` | kernel/crypto/sha256.c:61-68 | a context that has hashed the empty message |
| `Sha256.Context.Clone` | kernel/crypto/hmac.c:38-43 | a copied context has hashed the same message |
| `Sha256.Context.Update` | kernel/crypto/sha256.c:70-98 | whatever calls came before, the data is appended to the hashed message |
| `Sha256.Context.Final` | kernel/crypto/sha256.c:100-126 | the digest is the fold of the compression over the padded message of FIPS 180-4, for every way the message was cut |
| `Hmac.OneShot` | kernel/crypto/sha256.c:128-133 | the one-shot hash is the hash of the data |
| `Hmac.HmacContext.constructor` | kernel/crypto/hmac.c:5-30 | the two stored contexts have hashed the inner and outer pad of the normalized key |
| `Hmac.HmacContext.Compute` | kernel/crypto/hmac.c:32-46 | the result is the HMAC of RFC 2104 for every key and message, and the context can be used again |
| `Hmac.Compute` | kernel/crypto/hmac.c:48-54 | the one-shot HMAC is that of RFC 2104 |
| `Hmac.Verify` | kernel/crypto/hmac.c:56-63 | true exactly when the compared bytes are equal |
| `AesField.SBoxInverse` | kernel/crypto/aes.c:16-53 | the inverse S-box undoes the S-box |
| `AesField.XtimeLinear` | kernel/crypto/aes.c:60-78 | multiplication by x is linear over addition of bytes |
| `AesField.Unmixed` | kernel/crypto/aes.c:242-262 | the column matrix of decryption undoes that of encryption |
| `Aes.ShiftInverse` | kernel/crypto/aes.c:219-240 | shifting the rows back undoes shifting them |
| `Aes.MixInverse` | kernel/crypto/aes.c:242-262 | unmixing undoes mixing for every state |
| `Aes.DecryptingEncrypted` | kernel/crypto/aes.c:269-293 | before undoing a round, decryption is where encryption was in that round |
| `Aes.DecryptEncrypt` | kernel/crypto/aes.c:269-293 | decryption undoes encryption for every 176-byte key schedule and every block |
| `AesCipher.SubBytesAt` | kernel/crypto/aes.c:211-213 | the 16 bytes in place become their S-box values and nothing else changes |
| `AesCipher.InvSubBytesAt` | kernel/crypto/aes.c:215-217 | the 16 bytes in place become their inverse S-box values and nothing else changes |
| `AesCipher.ShiftRowsAt` | kernel/crypto/aes.c:219-228 | the swaps in place rotate row r left by r columns |
| `AesCipher.InvShiftRowsAt` | kernel/crypto/aes.c:230-239 | the swaps in place rotate row r right by r columns |
| `AesCipher.MixColumnsAt` | kernel/crypto/aes.c:242-251 | the loop in place mixes every column |
| `AesCipher.InvMixColumnsAt` | kernel/crypto/aes.c:253-262 | the loop in place unmixes every column |
| `AesCipher.AddRoundKeyAt` | kernel/crypto/aes.c:264-266 | the 16 bytes in place are added to the round key and nothing else changes |
| `AesCipher.EncryptAt` | kernel/crypto/aes.c:269-280 | the block in place is encrypted and nothing else changes |
| `AesCipher.DecryptAt` | kernel/crypto/aes.c:282-293 | the block in place is decrypted and nothing else changes |
| `AesCbc.RoundTrip` | kernel/crypto/aes.c:389-413 | CBC decryption undoes CBC encryption for every key schedule, initial vector and text of whole blocks |
| `AesCbc.Encrypt` | kernel/crypto/aes.c:389-399 | each ciphertext block is the cipher of the plaintext block added to the block before |
| `AesCbc.Decrypt` | kernel/crypto/aes.c:401-413 | each plaintext block is the deciphered block added to the ciphertext block before |
| `AesCbc.Pad` | kernel/crypto/aes.c:419-424 | the bytes up to the padded size say how many were added and the data is unchanged |
| `AesCbc.Unpad` | kernel/crypto/aes.c:426-434 | a nonzero length is returned exactly for the padding of that many bytes |
| `AesCbc.UnpadPad` | kernel/crypto/aes.c:415-434 | the padding of data is the padding of no other length, so every nonzero length is recovered |
| `Bytes.LeRoundTrip` | kernel/db/record_serde.c:5-59 | reading little-endian bytes undoes writing them |
| `Bytes.WriteLe` | kernel/db/record_serde.c:5-29 | the writers put exactly the little-endian bytes at the offset |
| `Bytes.ReadLe` | kernel/db/record_serde.c:31-59 | the readers return the number the bytes stand for |
| `RecordFormat.ValueHeld` | kernel/db/record_serde.c:128-177 | reading finds every value that was written and where it ends |
| `RecordFormat.RoundTrip` | kernel/db/record_serde.c:61-180 | deserializing undoes serializing for every in-range record, whatever follows it, and consumes exactly what was written |
| `RecordFormat.Injective` | kernel/db/record_serde.c:61-114 | different records have different bytes and none is a prefix of another |
| `RecordFormat.ReadRecordOk` | kernel/db/record_serde.c:116-180 | whatever the bytes are, a record that is read has all values in range and lies within them |
| `RecordFormat.Fits` | kernel/db/record_serde.c:61-114 | every record without blobs and with at most 15 fields fits the record buffer |
| `RecordFormat.SixteenTextsDoNotFit` | kernel/db/record_serde.c:61-114 | sixteen longest texts do not fit |
| `RecordSerde.WriteValue` | kernel/db/record_serde.c:74-110 | a field is written exactly when it fits |
| `RecordSerde.Serialize` | kernel/db/record_serde.c:61-114 | the buffer holds exactly the bytes of the record, or 0 is returned exactly when they do not fit and the buffer holds the header |
| `RecordSerde.GetValue` | kernel/db/record_serde.c:131-176 | a field is read as the format says, or refused |
| `RecordSerde.Deserialize` | kernel/db/record_serde.c:116-180 | the result is the record the format reads from the bytes, or refusal |
| `Database.Opened` | kernel/db/database.c:307-317 | decrypting what was encrypted for a record yields its padded bytes |
| `Database.Table.Encrypt` | kernel/db/database.c:213-271 | the result is sealed for the record, its codes are exact, and so is what is left in the shared buffers: nothing of a stored record, the header of one that does not fit, all of one for which memory fails |
| `Database.Table.Insert` | kernel/db/database.c:213-272 | the table becomes the map with the record under its row id; too large a record or no memory changes nothing |
| `Database.Table.Decrypt` | kernel/db/database.c:281-325 | a sealed record opens to itself, nothing opens whose seal does not match, and no plaintext stays in the buffer |
| `Database.Table.Get` | kernel/db/database.c:327-332 | the record last stored under the row id, or nothing |
| `Database.Table.Delete` | kernel/db/database.c:334-351 | exactly the row is removed, or it was not there |
| `Database.Table.Update` | kernel/db/database.c:353-365 | the row is replaced under its own id, or lost when the new record does not fit or memory fails, or it was not there |
| `Store.Store.constructor` | kernel/db/database.c:78-85 | no tables, and row ids from 1 on |
| `Store.Store.CreateTable` | kernel/db/database.c:61-76 | an empty table under the next number, unless there are 16; the other tables keep their rows |
| `Store.Store.NextRowId` | kernel/db/database.c:29-31 | the row id is in no table, and the next one is larger |
| `Store.Store.Get` | kernel/db/database.c:327-332 | the record last stored under the row id of that table, or nothing |
| `Store.Store.Insert` | kernel/db/database.c:213-272 | exactly the named table gains exactly the record; the codes are exact, a table number out of range included |
| `Store.Store.Delete` | kernel/db/database.c:334-351 | exactly the row leaves exactly the named table |
| `Store.Store.Update` | kernel/db/database.c:353-365 | exactly the row of the named table is replaced or lost |
| `Store.Store.InsertNew` | kernel/db/query.c:435-491 | a row with an id from the counter is new to every table, so it is stored exactly when it fits and memory allows |
| `Store.Store.Audit` | kernel/db/database.c:372-406 | the audit table, if there is one, gains exactly the row for the event under a new row id |
| `Store.AuditFits` | kernel/db/database.c:388-401 | an audit row always fits the record buffer |
| `Filter.StrcmpEqual` | kernel/lib/string.c:57-60 | the string comparison is 0 exactly for equal strings |
| `Filter.StrcmpSign` | kernel/lib/string.c:57-60 | swapping the strings changes the sign of the comparison |
| `Filter.StrcmpTransitive` | kernel/lib/string.c:57-60 | the string comparison orders strings transitively |
| `Filter.TextEquality` | kernel/db/query.c:153-164 | an equality condition selects exactly the fields with that text |
| `Filter.FindColumn` | kernel/db/query.c:200-205 | the first column of that name, ignoring case, or none |
| `Filter.RecordMatches` | kernel/db/query.c:207-216 | a record matches exactly when it meets every condition |
| `Query.Select` | kernel/db/query.c:358-398 | exactly the matching rows whose allocations succeed, in strictly ascending row id order |
| `Query.Insert` | kernel/db/query.c:435-500 | the row is stored under the next row id and logged under the one after it, or nothing is stored or logged |
| `Insertion.Fill` | kernel/db/query.c:442-488 | the loop over the values computes the filled fields |
| `Insertion.FilledShape` | kernel/db/query.c:434-488 | a filled record has one value in range for every column of the table |
| `Insertion.FilledField` | kernel/db/query.c:434-488 | the statement is refused exactly when a name is no column; every column that is not filled in by the kernel holds the last value given for it, or else 0 or the row id |
| `Insertion.Insert` | kernel/db/query.c:400-500 | an unknown column uses up a row id and stores nothing; otherwise the filled row is stored and logged, and rows stay as wide as their tables |
| `Insertion.DeleteFull` | kernel/db/query.c:515-552 | a DELETE keeps every row as wide as its table |
| `Insertion.UpdateFull` | kernel/db/query.c:554-626 | an UPDATE keeps every row as wide as its table |
| `Insertion.FullAssigned` | kernel/db/query.c:606-610 | in such a row every column that an UPDATE names gets its value |
| `Query.Delete` | kernel/db/query.c:515-552 | exactly the matching rows leave the named table, the audit table gains exactly one row for each under new row ids, no other table changes, the number is reported; the named table ends without the matching rows and nothing else exactly when it is not the audit table or no deletion was logged |
| `Query.DeletedStep` | kernel/db/query.c:538-544 | deleting and logging the next row is one step of that result, because logged row ids are above all others |
| `Query.AuditTableNotEmptied` | kernel/db/query.c:538-544 | DELETE FROM AuditTable leaves one new row for each row deleted |
| `Query.Assign` | kernel/db/query.c:604-610 | the assignments are applied in order, the last one to a column counting |
| `Query.AssignedField` | kernel/db/query.c:606-610 | exactly the named columns get their values, and only where the record has the field |
| `Query.SecondColumnLost` | kernel/db/query.c:606-610 | setting the second column of a record with one field changes nothing |
| `Query.Update` | kernel/db/query.c:594-626 | exactly the matching rows of the named table change, by the assignments, under their own row ids, or are lost where the changed record does not fit or memory fails; the audit table gains exactly one row; the named table ends with the changed rows and nothing else exactly when it is not the audit table or the entry was not logged, and otherwise has one row more |
| `SchedulerModel.SwitchAt` | kernel/proc/scheduler.c:37-60 | a switch moves the running process to the back and the head behind it |
| `SchedulerModel.Round` | kernel/proc/scheduler.c:37-68 | from a queue of n processes with the running one in it but not at its head, n calls run every process exactly once: the head, the others in order, the one that was running |
| `SchedulerModel.Stuck` | kernel/proc/scheduler.c:47-47 | with the running process at the head no number of calls runs another one |
| `SchedulerModel.RoundExactly` | kernel/proc/scheduler.c:37-68 | a round runs every process exactly when the head is not the running one |
| `Scheduler.AddTail` | kernel/lib/list.h:26-31 | the node becomes the last of the circular list, linked both ways |
| `Scheduler.Del` | kernel/lib/list.h:33-38 | the node leaves the circular list, the others stay linked in order |
| `Scheduler.Scheduler.Add` | kernel/proc/scheduler.c:23-26 | the process becomes ready at the back of the queue |
| `Scheduler.Scheduler.Unlink` | kernel/proc/scheduler.c:28-31 | the process leaves the queue and the others stay in order |
| `Scheduler.Scheduler.Schedule` | kernel/proc/scheduler.c:37-68 | the queue and the running process are those of the model; states follow, and only the running process is marked running |
| `Scheduler.Scheduler.Block` | kernel/proc/scheduler.c:82-88 | the process leaves the queue and, if it was running, the head of the rest runs |
| `Scheduler.Scheduler.Unblock` | kernel/proc/scheduler.c:90-93 | the process becomes ready at the back of the queue |
| `Scheduler.Scheduler.Start` | kernel/proc/scheduler.c:95-103 | the head runs and stays at the head |
| `Scheduler.Scheduler.Slices` | kernel/proc/scheduler.c:70-80 | after any number of timeslices the processes that ran are the trace of the model |
| `Ipc.Queue.constructor` | kernel/proc/ipc.c:12-18 | an empty ring whose first message id is 1 |
| `Ipc.Queue.Send` | kernel/proc/ipc.c:20-31 | the message is appended under the next id unless 63 are waiting |
| `Ipc.Queue.Recv` | kernel/proc/ipc.c:33-52 | the earliest message for the process or for everyone is taken, the others stay in order; none exactly when there is none |
| `Ipc.Queue.Remove` | kernel/proc/ipc.c:40-46 | the shifting loop removes exactly the one message, around the end of the ring |

## Left out

- The tokenizer, the grammar of queries, and the SHOW TABLES, DESCRIBE, GRANT and REVOKE statements: easy members beside the query semantics.
- The derivation of table keys (kernel/db/database.c:38-59) and the schemas of the system tables: keys and column names are parameters.
- The key schedule of AES (kernel/crypto/aes.c:176-209) and its hardware instructions: decryption is proved for every schedule.
- The rounds of the SHA-256 compression: the results hold for every compression function.
- The view through which the kernel reaches page tables: identity mapping first, the direct map later.
- Freeing of B-tree nodes and of encrypted records, and the aliasing of the one static record that decryption returns.
- Process creation and exit, context switches and stacks, `scheduler_tick`'s counting of ticks.
- Cryptographic strength and timing; drivers, boot, shell and display.
- BTreeIndex.Node.InsertAt: reads the slot after the last key only inside the array, where the source reads one past it for a node of 63 keys.
- BTreeIndex.Node.InsertNonfull: the tree must be well formed; a tree that a duplicate insertion shifted apart is described by `BTreeTheorems.ClobberBreaks`.
- BTreeIndex.BTree.Insert: the tree must be well formed, as above.
- Capability.CapSystem.Validate: the cache holds no failed validation, as in every reachable state; `Capability.CachedFailureLasts` says what one would do.
- BTreeIndex.Node.SplitChild: the source's assertion that a node can be allocated is taken to hold.
- Bitmap.SetRange: the range must lie in the bitmap, as the source's callers ensure.
- Pmm.Pmm.constructor: the kernel image must lie below 4 GiB, as the source's bitmap requires.
- Pmm.Pmm.FreePage: its precondition is the source's pair of assertions.
- Pmm.Pmm.FreePages: the pages must lie below 4 GiB.
- Paging.Paging.MapPage: returns false where the source's assertion stops the kernel.
- Paging.Paging.CreateUserSpace: returns nothing where the source's assertion stops the kernel.
- UserSpace.Apply: the address lies in the lower half, which is the process's own.
- UserSpace.Operate: as for one user space; it stops where the source's assertion stops the kernel.
- Insertion.Insert: names and values come parsed; the row counter must not wrap around on the way.
- Teardown.Destroy: the space must be a tree of allocated tables without 2 MiB pages at the lowest directory level, as mapping leaves it.
- Heap.Heap.Free: the pointer must be 0 or a live payload; the source asserts the header's magic number and that it is not free.
- KernelSpace.Init: returns nothing where one of the source's assertions stops the kernel.
- KernelSpace.DirectMap: the frame buffer has fewer than 2^36 - 0x2E000 pages, so it does not come round to the direct map again.
- Heap.Heap.Zalloc: where the clearing overruns, the model stops behind it.
- HeapSteps.OverrunTears: holds in memory typed by its last write; bytes equal to the header they overwrite are not told apart.
- Heap.Heap.Realloc: where the copy overruns, the model stops behind the copy; the free that follows reads a list that is not there.
- HeapRuns.Serve: stops where the list is torn; expansions take their pages as given, `HeapExpand.Expand` takes and maps them.
- HeapExpand.Expand: says which pages were mapped only when all of them were; the source's assertion stops the kernel otherwise.
- Capability.CapSystem.CreateRoot: the id counter must be below 2^64 - 1, where the source wraps around.
- Capability.CapSystem.Grant: the id counter must be below 2^64 - 1, where the source wraps around.
- Capability.CapSystem.constructor: the master key is an arbitrary seal function.
- Sha256.Context.Update: messages stay below 2^61 bytes, the domain of the 64-bit length.
- Hmac.HmacContext.Compute: messages stay 64 bytes below 2^61 bytes.
- AesCbc.Encrypt: the length is a multiple of 16, as the source's header demands, and the buffers are distinct.
- AesCbc.Decrypt: the length is a multiple of 16, as the source's header demands, and the buffers are distinct.
- RecordSerde.Serialize: the record has at most 16 fields, of the seven types, with lengths in range; the source does not check that.
- Database.Table.Insert: the row id must not be in the table, as the database's callers ensure; the B-tree results say what happens otherwise.
- Database.Table.Decrypt: the ciphertext has whole blocks, as every stored one does.
- Store.Store.Insert: the row id must be below the counter and not in the table, as the database's callers ensure.
- Store.Store.NextRowId: the counter must be below 2^64 - 1, where the source wraps around.
- Query.Delete: the row counter must not wrap around on the way.
- Query.Update: the row counter must not wrap around on the way.
- Query.Insert: the fields are given; the row counter must not wrap around on the way.
- Scheduler.Scheduler.Add: the process must not be in the queue; list_add_tail of a linked node would break the list.
- Scheduler.Scheduler.Unblock: the process must not be in the queue.
- Scheduler.Scheduler.Unlink: the process must be in the queue.
- Scheduler.Scheduler.Block: the process must be in the queue.
- Scheduler.Scheduler.Start: nothing may run yet; entering the process is not modelled.
- Ipc.Queue.Send: the message counter must be below 2^64 - 1, where the source wraps around.
