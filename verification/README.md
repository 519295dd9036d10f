# Verification of the Laomb kernel's data structures

Laomb is a small kernel for the i586. This project models seven of its parts in Dafny and proves
properties of the models:

- the **kernel heap** (`kmalloc`, `kfree`, `krealloc`) over the **physical page allocator**,
- the **red-black tree** with parent pointers,
- the two-level **page tables** and the translation cache,
- the **FAT32 reader** with its sector buffers and its cached file allocation table,
- the **round-robin scheduler**, as a step system,
- the **virtual file system** tree with mounts, and the shell's **path resolution**,
- the **formatter** behind `printf`.

Each part has pure modules (values, specification functions, lemmas) and a module with the code's
own operations as methods that change state. A method's contract ties the new state to the old one
through the specification; what the kernel relies on is then proved about the specification, for
all inputs and all runs.

| Part | Specification and lemmas | Operations |
|---|---|---|
| pages | `Pmm.dfy`, `PmmBoot.dfy` | `Pmm.dfy`, `PmmBoot.dfy` |
| heap | `HeapLayout.dfy`, `HeapBlocks.dfy`, `HeapState.dfy`, `HeapBet.dfy`, `HeapCells.dfy` | `KernelHeap.dfy` |
| red-black tree | `RbShape.dfy`, `RbRules.dfy`, `RbRemoval.dfy` | `RbTree.dfy` |
| page tables | `Paging.dfy` | `Vmm.dfy` |
| FAT32 | `FatModel.dfy`, `FatChain.dfy` | `Fat.dfy` |
| scheduler | `SchedModel.dfy` | `Sched.dfy` |
| paths | `PathText.dfy` | `CStrings.dfy`, `Shell.dfy` |
| file system | `VfsTree.dfy`, `VfsPaths.dfy` | `Vfs.dfy` |
| formatter | `PrintfText.dfy`, `PrintfNumbers.dfy`, `PrintfPrefix.dfy`, `PrintfFormat.dfy`, `PrintfShape.dfy`, `PrintfOutput.dfy` | `Printf.dfy` |

How memory appears. Tree nodes, task structures and buffers are Dafny objects and arrays. Where the
code works with raw addresses (heap headers, page tables, file system nodes), memory is a map or a
function from addresses to records, held in a field that the methods change entry by entry; addresses
are natural numbers and 0 is the null pointer. Numbers that the code may let wrap around are reduced
explicitly.

## What was found

- **Heap.** The search for a gap always ends, and a new block is requested exactly when no gap of any
  block holds the cell with its header: the gaps of a block add up to its size minus its usage, so the
  early skip loses nothing. Payloads are 16-aligned and meet neither each other nor any header or
  hidden offset byte; `krealloc` keeps the common prefix; the pages in use are at every moment exactly
  those of the listed blocks and those of other owners. The best bet that an allocation leaves behind
  had at least as many free bytes as the one before and as every block looked at
  (`HeapBet.BetFoundIs`). Freeing compares as signed numbers, so it keeps the better of the two blocks
  exactly unless just one of them has 2 GiB or more free (`HeapBet.RebetIs`).
- **Red-black tree.** `rb_delete` (line 266) skips the fixup for a missing replacement. From a
  red-black tree it yields a red-black tree exactly when the node taken out was not a black node
  without children, or the tree became empty (`RbTree.Tree.Delete`; the smallest damage is
  `RbRemoval.DamagedByRemoval`). What every run of insertions and deletions keeps is therefore the
  search order, the links and the colour rules; an insertion neither damages the balance nor repairs
  it (`RbTree.Tree.Insert`). On a red-black tree the argument of the deletion fixup is red, so its loop
  is never entered (`RbRemoval.GapGood`). On a damaged tree it is, and it reads a missing left sibling
  or a missing inner child of a red sibling through a null pointer, exactly when
  `RbRules.SiblingsMet` fails; five deletions from a red-black tree are enough
  (`RbRemoval.DamageAddsUp`).
- **Page tables.** A new page table is not cleared, so stale entries become visible
  (`Paging.RangeMapped`, through `Vmm.Vmm.MapPage`), and the directory never grants user access, so
  `PAGE_USER` has no effect. `invlpg` runs after the address was advanced: the first page of a range,
  and only that one, can keep a stale translation (`Paging.OnlyFirstStale`). The boot-time directory
  is exact all the same, because its window covers whole directory slots (`Vmm.Vmm.InitPd`).
- **FAT32.** The file allocation table cache is transparent after any history of lookups whose reads
  succeed (`FatModel.HistoryIsInvisible`); a failed read leaves it claiming sectors it does not hold
  (`FatModel.FailedReadSpoils`). The end-of-chain test compares with `0xFFFFFFF8`, not with the 28-bit
  mark of the section "FAT Data Structure" of the Microsoft FAT32 File System Specification 1.03.
  Reads of files are bounded by their size all the same. A read of a directory of unknown size that
  asks for more than the chain holds stops there exactly when the entry of its last cluster is one of
  the eight marks the code knows or leads to an unreadable sector (`FatChain.DirectoryRead`); after the
  ordinary mark 0x0FFFFFFF it may go on with a sector in front of the data (`FatChain.EndMarkMissed`).
- **Scheduler.** The search for a task ends exactly when the list is empty or has a current or a ready
  task (`SchedModel.SearchEnds`). Suspending and resuming is exact when the selectors fit 16 bits
  (`SchedModel.ResumeUndoesSuspend`). Removing the current task makes the following interrupt save its
  registers in the task at the head of the list (`SchedModel.SelfRemovalOverwrites`): in every run a
  resumed task gets the registers last saved in its name (`SchedModel.ResumeDelivers`), which are its
  own unless such a removal came in between (`SchedModel.SavedForIs`).
- **Paths.** Resolving an already resolved path changes nothing, exactly when it does not end in
  whitespace (`PathText.ResolveIdempotent`).
- **File system.** A node just created is found under its path exactly when its name is not empty,
  nothing is mounted on its folder and no other child had that name (`VfsPaths.CreateThenOpen`).
  Removing a path leaves the mounts in order exactly when no mounted root goes with it
  (`VfsPaths.MountsAfterCut`). Unmounting leaves the `next` link of the root set; mounting a node
  keeps the forest well formed exactly when that link is null, the node is no folder's child, and it
  is not the root of the file system (`Vfs.FileSystem.MountAt`, through `VfsTree.AttachedRight`).
- **Formatter.** For every list of texts and directives the output is that of the items, one behind the
  other, each directive with its own arguments (`PrintfOutput.FormatPrints`). A number is read back as it was printed exactly when it has at most 32 digits and, if
  negative, a place for its sign beside the zeros that width and precision ask for
  (`PrintfNumbers.NumberParsesBack`); `%llb` of 2^32 and `%.32d` of -1 are not
  (`PrintfNumbers.LongLosesDigit`, `PrintfNumbers.PrecisionLosesSign`). The
  prefix of the flag `#` takes the place of digits when width or precision equal their number, even
  if they are no padding: `%#4x` of 0xABCD gives `0xcd` (`PrintfPrefix.HashLosesDigits`;
  `PrintfPrefix.DigitsSurvive` is the exact condition). Sign and prefix are complete exactly when they
  fit the conversion buffer together with the digits (`PrintfPrefix.SignAndPrefix`).
- **Page bitmap.** Its size counts usable pages only, is rounded down to whole bytes and wraps around
  at 4 GiB, but its bits are indexed by page number. A map with a hole therefore makes `pmm_init` write
  behind the bitmap (`PmmBoot.HoleExample`); for maps without overlaps or wrap-around it stays inside
  exactly when memory is one piece from page 0 on whose pages fill whole bytes
  (`PmmBoot.OnePieceOnly`). 4 GiB in one region give a bitmap of no bytes, and no page is released or
  cleared: the allocator hands out pages by what the memory behind the pointer happens to hold
  (`PmmBoot.FourGigabytes`). The reservation of page 0 is undone exactly when a usable region hands
  the page out and the bitmap does not lie over it (`PmmBoot.PageZeroKept`, `PmmBoot.PageZeroFreed`).
  A usable region without a page boundary wraps its page count around (`PmmBoot.RegionGives`). Within
  the bitmap, a page is free exactly when a usable region hands it out (`PmmBoot.FreeIsUsable`).

## Model

| member | source | states |
|---|---|---|
| `Pmm.PageMap.SetBit` | kernel/src/sys/mm/pmm.c:17-19 | setting a bit adds exactly this page to the set of used pages |
| `Pmm.PageMap.ClearBit` | kernel/src/sys/mm/pmm.c:21-23 | clearing a bit removes exactly this page from the set of used pages |
| `Pmm.PageMap.Alloc` | kernel/src/sys/mm/pmm.c:106-114 | takes the lowest free page; null and no change exactly when none is free |
| `Pmm.PageMap.AllocPages` | kernel/src/sys/mm/pmm.c:116-138 | marks exactly the lowest-starting run of free pages; fails without a change exactly when there is none or the number is 0 |
| `Pmm.PageMap.FreePages` | kernel/src/sys/mm/pmm.c:140-146 | frees exactly the given range of pages |
| `Pmm.RunFound` | kernel/src/sys/mm/pmm.c:120-131 | a run found by counting up from the last used page is the lowest one of all |
| `PmmBoot.Init` | kernel/src/sys/mm/pmm.c:29-103 | for every memory map, in 32-bit arithmetic: the bits set afterwards, inside the bitmap and behind it, are those that the map and the earlier content of the memory determine |
| `PmmBoot.FreeIsUsable` | kernel/src/sys/mm/pmm.c:83-103 | a page with a bit in the bitmap is free exactly when a usable region hands it out and it does not lie under the bitmap, whatever the memory held before |
| `PmmBoot.PlacementIs` | kernel/src/sys/mm/pmm.c:55-66 | the bitmap lies in the first usable region whose whole pages hold it |
| `PmmBoot.BitmapReserved` | kernel/src/sys/mm/pmm.c:69-76 | for a bitmap that does not wrap around: every page that shares a byte with it stays reserved, and of the usable pages no other one does |
| `PmmBoot.LeavesRestAlone` | kernel/src/sys/mm/pmm.c:74-101 | the memory behind the bitmap is left alone, for every content, exactly when no page number of the map has its bit there |
| `PmmBoot.RegionGives` | kernel/src/sys/mm/pmm.c:88-90 | a region hands out exactly its whole pages, exactly when a page boundary lies inside it and the 32-bit differences do not wrap around |
| `PmmBoot.OnePieceOnly` | kernel/src/sys/mm/pmm.c:41-101 | a map without overlaps or wrap-around causes no write outside of the bitmap exactly when its usable pages are 0 to n without a hole, n a multiple of 8 |
| `PmmBoot.CoversAll` | kernel/src/sys/mm/pmm.c:50 | the bitmap has a bit for each page counted exactly when their number is a multiple of 8 and below that of 4 GiB |
| `PmmBoot.HoleExample` | kernel/src/sys/mm/pmm.c:50-101 | the map of a PC with the hole below 1 MiB: a page beyond the bitmap is written |
| `PmmBoot.FourGigabytes` | kernel/src/sys/mm/pmm.c:50 | one usable region of 4 GiB gives a bitmap of no bytes, and every bit but that of page 0 stays as the memory held it |
| `PmmBoot.PageZeroKept` | kernel/src/sys/mm/pmm.c:83-103 | page 0 stays reserved exactly when no usable region hands it out or the bitmap lies over it |
| `PmmBoot.PageZeroFreed` | kernel/src/sys/mm/pmm.c:83-103 | a map after which page 0 is free, whatever the memory held |
| `PmmBoot.OwnCell` | kernel/src/sys/mm/vmm.c:143 | the bit cleared for a frame lies in the bitmap itself exactly when the frame is below the number of pages counted, modulo 4 GiB and rounded down to whole bytes |
| `HeapLayout.GapsAreFree` | kernel/src/std/liballoc.c:208-209 | the gaps of a block add up to its size minus its usage |
| `HeapLayout.SkipIsSound` | kernel/src/std/liballoc.c:221-235 | a block with fewer free bytes than a cell needs has no gap for it |
| `HeapLayout.UsageBounded` | kernel/src/std/liballoc.c:84-85 | the usage of a well-formed block never exceeds its size, so the difference does not wrap around |
| `HeapState.PayloadInside` | kernel/src/std/liballoc.c:45-58 | payload and offset byte lie inside their cell, the payload aligned to 16 bytes behind the offset byte |
| `HeapState.PayloadsApart` | kernel/src/std/liballoc.c:45-69 | the payloads of live pointers are aligned, lie inside their block, and meet neither each other nor any header nor any offset byte |
| `HeapState.ClientWrites` | kernel/src/std/liballoc.c:79-101 | writes of clients to their own payloads leave the heap consistent, even if every header they touch is lost: they touch none of a listed block or cell, and no offset byte |
| `HeapState.LiveReads` | kernel/src/std/liballoc.c:61-69 | UNALIGN leads from a live pointer to exactly its own header |
| `HeapState.LiveUnique` | kernel/src/std/liballoc.c:61-69 | a pointer belongs to one cell only |
| `HeapState.FreedIsDead` | kernel/src/std/liballoc.c:549-555 | after a cell was freed and its block stays, its pointer is recognised as freed |
| `HeapState.PlacedConsistent` | kernel/src/std/liballoc.c:256-410 | writing a cell into a gap that holds it keeps the lists, the order, the disjointness, the totals and the offset bytes right |
| `HeapState.TakenOutConsistent` | kernel/src/std/liballoc.c:545-557 | unlinking a cell keeps the heap well formed and the totals right |
| `HeapState.GrownConsistent` | kernel/src/std/liballoc.c:120-153 | linking a new block in keeps the heap well formed, with exactly the pages of the new block more |
| `HeapState.GivenBackConsistent` | kernel/src/std/liballoc.c:566-575 | unlinking an empty block keeps the heap well formed |
| `HeapState.PagesForIs` | kernel/src/std/liballoc.c:120-134 | a new block gets the least number of pages, from 16 on, whose bytes hold the cell and both headers |
| `HeapState.TryOutcome` | kernel/src/std/liballoc.c:206-446 | the search settles on the first fitting block, counting from its start around the list, and on a new block only when no old one fits |
| `HeapBet.StartIs` | kernel/src/std/liballoc.c:192-204 | the search starts at the best bet exactly when that has more free bytes than the cell needs, and at the first block otherwise |
| `HeapBet.BetIsTaken` | kernel/src/std/liballoc.c:192-446 | a best bet with more free bytes than needed is taken if it has a gap for the cell; with too few, the first block of the list with a gap is |
| `HeapBet.BestBetIs` | kernel/src/std/liballoc.c:208-216 | going over a stretch of the list, the best bet becomes the first block there with the most free bytes, if these are more than its own |
| `HeapBet.BetFoundIs` | kernel/src/std/liballoc.c:195-216 | after an allocation the best bet had, before the cell was stored, at least as many free bytes as the old one and as every block looked at; a new one is one of those and had more than the old one |
| `HeapBet.RebetIs` | kernel/src/std/liballoc.c:576-585 | after a free the best bet is the one of the two blocks with more free bytes, exactly unless just one of the two numbers is below 2 GiB |
| `HeapBet.BetWithoutBlock` | kernel/src/std/liballoc.c:561-575 | when the block of the freed cell goes, the best bet is forgotten if it was that block, and stays otherwise |
| `HeapBlocks.OwnsMore` | kernel/src/std/liballoc.c:32-36 | the pages of a new block join those of the heap, disjoint from all others |
| `HeapBlocks.OwnsLess` | kernel/src/std/liballoc.c:37-41 | giving the pages of a block back leaves exactly those of the other blocks and owners in use |
| `HeapCells.StoredCells` | kernel/src/std/liballoc.c:156-446 | an allocation adds exactly one cell, a new one, to those handed out |
| `HeapCells.FreedCells` | kernel/src/std/liballoc.c:472-592 | freeing takes exactly one cell away, also when its block goes with it |
| `HeapCells.OthersKept` | kernel/src/std/liballoc.c:45-58 | what is written inside one cell reaches the payload of no other |
| `HeapCells.CopyFacts` | kernel/src/std/liballoc.c:700-703 | copying to a new cell changes no other payload and carries the bytes over |
| `HeapCells.ResizedConsistent` | kernel/src/std/liballoc.c:689-696 | recording a smaller request keeps the heap well formed |
| `HeapCells.MallocPages` | kernel/src/std/liballoc.c:206-446 | an allocation leaves the used pages alone if a gap of any block fits, and otherwise takes exactly the lowest run for one new block |
| `KernelHeap.Heap.AllocateNewPage` | kernel/src/std/liballoc.c:120-153 | takes the lowest run of enough free pages, at least 16, and writes the header of an empty block |
| `KernelHeap.Heap.PlaceInBlock` | kernel/src/std/liballoc.c:254-416 | the lowest gap of the block that holds the cell gets it, fully linked; null without a change exactly when there is none |
| `KernelHeap.Heap.FindAndPlace` | kernel/src/std/liballoc.c:206-446 | the search ends, on the block and gap that the specification chooses, in spite of restarts and growth |
| `KernelHeap.Heap.Malloc` | kernel/src/std/liballoc.c:156-462 | one new cell of the requested size in the chosen gap, its aligned pointer, no payload touched, the heap well formed; a new block only when no gap of any block fits; the best bet is the one that the blocks looked at give (see HeapBet.BetFoundIs) |
| `KernelHeap.Heap.Align` | kernel/src/std/liballoc.c:45-58 | the pointer of the cell, with the distance hidden in front of it |
| `KernelHeap.Heap.Release` | kernel/src/std/liballoc.c:566-575 | an empty block leaves the list and exactly its pages become free |
| `KernelHeap.Heap.Rebet` | kernel/src/std/liballoc.c:576-585 | the best bet stays a listed block or null, compared in signed 32-bit arithmetic |
| `KernelHeap.Heap.FreeCell` | kernel/src/std/liballoc.c:545-587 | removes the cell, gives the block and exactly its pages back if it was the last one, and marks the header dead |
| `KernelHeap.Heap.Free` | kernel/src/std/liballoc.c:472-592 | null and freed pointers are only counted; a live pointer loses exactly its cell |
| `KernelHeap.Heap.Realloc` | kernel/src/std/liballoc.c:617-706 | frees, allocates, shrinks in place or moves; the bytes up to the smaller request are kept, and so are all other payloads and the pages of other owners; the used pages change only by a new block taken and an emptied one given back |
| `RbShape.RotateLeftItems` | kernel/src/rbtree.c:12-26 | a left rotation keeps the items in order |
| `RbTree.Tree.RotateLeft` | kernel/src/rbtree.c:12-26 | the pointers afterwards describe the rotated tree, parents included, and nothing else changed |
| `RbTree.Tree.RotateRight` | kernel/src/rbtree.c:28-42 | the mirror image |
| `RbTree.Tree.InsertRound` | kernel/src/rbtree.c:45-79 | one round of the loop moves the pair of red nodes up and keeps items, nodes, all other colour rules, and the balance or its absence |
| `RbTree.Tree.InsertFixup` | kernel/src/rbtree.c:44-81 | makes a tree whose only offence against the colour rules is one pair of red nodes obey them again, with the same items, balanced exactly if it was |
| `RbTree.Tree.Insert` | kernel/src/rbtree.c:83-106 | in every tree that obeys the colour rules: adds exactly one item behind those with keys not larger, keeps links and colour rules, and the result is balanced exactly if the tree was |
| `RbShape.InsertionsAdd` | kernel/src/rbtree.c:83-106 | any sequence of insertions, duplicates included, keeps the order and adds exactly the inserted items |
| `RbShape.InsertionsStayFlat` | kernel/src/rbtree.c:83-106 | after n insertions the height is at most twice the logarithm of n + 1 |
| `RbShape.HeightIsLogarithmic` | kernel/src/rbtree.c:44-81 | every red-black tree has logarithmic height |
| `RbTree.Tree.Search` | kernel/src/rbtree.c:122-131 | finds a node with the key exactly when there is one, in at most as many steps as the tree is high |
| `RbTree.Tree.Minimum` | kernel/src/rbtree.c:133-137 | the leftmost node of the subtree |
| `RbTree.Tree.DeleteFixup` | kernel/src/rbtree.c:139-202 | keeps items and colour rules, restores the balance of a tree with one subtree short of a black node, and reads no missing sibling exactly when none is on its way |
| `RbRules.BlackNephewsStep` | kernel/src/rbtree.c:152-155 | painting a black sibling red moves the missing black node up |
| `RbRules.RedFarStep` | kernel/src/rbtree.c:164-169 | the final rotation settles the missing black node |
| `RbRemoval.GapGood` | kernel/src/rbtree.c:210-264 | in a red-black tree the node taken out has at most one child, which is red, so the fixup loop is not entered |
| `RbRemoval.RemovalOutcome` | kernel/src/rbtree.c:205-269 | without the fixup the result is red-black exactly when no childless black node was taken out or nothing is left |
| `RbRemoval.DamagedByRemoval` | kernel/src/rbtree.c:266-268 | a concrete red-black tree that the removal of a black leaf damages |
| `RbRemoval.ColoredOutcome` | kernel/src/rbtree.c:205-269 | in every tree that obeys the colour rules they hold after the removal, or the fixup may be called |
| `RbRules.ShortMeetsSiblings` | kernel/src/rbtree.c:139-202 | a tree with one subtree short of a black node, and otherwise balanced, has every sibling that the fixup reads |
| `RbRemoval.RedBlackIsSafe` | kernel/src/rbtree.c:205-269 | no deletion from a red-black tree reads a missing sibling |
| `RbRemoval.LeafGoes` | kernel/src/rbtree.c:205-269 | the deletion of a black leaf calls for no fixup and leaves the tree without it |
| `RbRemoval.DamageAddsUp` | kernel/src/rbtree.c:170-173 | from a red-black tree of seven nodes four deletions, each without a fixup and with the next tree as its outcome, lead to a fifth that reads a missing sibling |
| `RbTree.Tree.Delete` | kernel/src/rbtree.c:205-269 | in every tree that obeys the colour rules: removes exactly one occurrence of the key and keeps order, links and colour rules, or meets a missing sibling, exactly when the path up from the gap has one; from a red-black tree it never does, and the result is red-black if and only if the node taken out was not a black leaf or the tree became empty |
| `Paging.NewTable` | kernel/src/sys/mm/vmm.c:96-104 | a new table keeps the directory well formed, its tables in distinct frames in use |
| `Paging.NewTableStale` | kernel/src/sys/mm/vmm.c:96-104 | the pages of a new table translate to whatever its frame held |
| `Paging.PageWritten` | kernel/src/sys/mm/vmm.c:106-110 | the page translates to its frame and flags, but never with user access |
| `Paging.WantedIs` | kernel/src/sys/mm/vmm.c:19-24 | bit 0 of the flags makes a page present, bit 1 writable, and no bit grants user access |
| `Paging.PageWrittenElsewhere` | kernel/src/sys/mm/vmm.c:106-110 | no other page changes its translation |
| `Paging.StepMapped` | kernel/src/sys/mm/vmm.c:90-114 | one round of the loop, seen in the flat map |
| `Paging.OnlyFirstStale` | kernel/src/sys/mm/vmm.c:112-116 | only the first page of a range can keep a stale translation, and it does exactly when a different one was cached |
| `Paging.MapThenUnmap` | kernel/src/sys/mm/vmm.c:87-149 | after mapping a page and unmapping it the page is unmapped, and all others translate as before, but those of a slot that got a table show what its frame held |
| `Paging.MapThenUnmapRestores` | kernel/src/sys/mm/vmm.c:87-149 | the flat map of the other pages is restored exactly when no new table was needed or its frame held no present entry |
| `Paging.UnmapCoherent` | kernel/src/sys/mm/vmm.c:123-149 | unmapping leaves no stale translation |
| `Vmm.Vmm.MapPage` | kernel/src/sys/mm/vmm.c:87-120 | refines the flat map: on success all pages of the range, on failure exactly a prefix, new tables exactly where needed and in frames that were free, only tables written |
| `Vmm.Vmm.UnmapPage` | kernel/src/sys/mm/vmm.c:123-149 | unmaps exactly this page and frees its frame; fails without a change exactly when it is not mapped |
| `Paging.BootDone` | kernel/src/sys/mm/vmm.c:48-79 | the window covers whole directory slots, so no stale entry survives in it |
| `Paging.CoversIs` | kernel/src/sys/mm/vmm.c:53-65 | an area that ends below 4 GiB backs exactly its own bytes, whatever its kind but invalid and reserved; one that ends at 4 GiB backs none |
| `Paging.BootMapIs` | kernel/src/sys/mm/vmm.c:48-79 | the flat map: each page of the 1 GiB window maps its frame, writable for the kernel, exactly if an area lies there; no other page is mapped |
| `Vmm.Vmm.InitPd` | kernel/src/sys/mm/vmm.c:37-79 | the flat map is exactly that of the memory map: each backed page of the window, writable for the kernel, and nothing else |
| `FatModel.CacheIsTransparent` | kernel/src/fs/fat32.c:227-244 | a lookup in a truthful cache whose read succeeds finds the entry that is on the disk and leaves the cache truthful |
| `FatModel.HistoryIsInvisible` | kernel/src/fs/fat32.c:227-244 | from the empty cache, after any sequence of lookups with successful reads, a lookup finds the entry that is on the disk |
| `FatModel.IndexInCache` | kernel/src/fs/fat32.c:239-241 | the cache is read in bounds, for every cluster number |
| `FatModel.FailedReadSpoils` | kernel/src/fs/fat32.c:232-237 | a failed read makes the cache claim sectors it does not hold |
| `FatModel.Word32ReadsBack` | kernel/src/fs/fat32.c:241 | the entry is read lowest byte first |
| `FatModel.ReadableIs` | kernel/src/fs/mbr.c:28-32 | the bounds check compares the sector's place on the disk, with the partition's offset and in 32-bit arithmetic, with the size of the partition |
| `FatModel.SectorsAtIs` | kernel/src/fs/mbr.c:33 | the bytes read are those of the sectors of the disk from the partition's offset plus the sector number on |
| `FatModel.EntryIs` | kernel/src/fs/fat32.c:227-244 | the entry of a cluster is the four bytes at four times its number in the table behind the reserved sectors |
| `FatModel.ClustersApart` | kernel/src/fs/fat32.c:96-99 | the clusters lie one behind the other from the start of the data on, and no two of their sectors share a place |
| `FatModel.ReadsCompose` | kernel/src/fs/fat32.c:257-300 | two reads in a row are one longer read, unless the first met an end or an error |
| `FatModel.ReadFileIsNext` | kernel/src/fs/fat32.c:246-303 | a read of a file gives exactly the next min(n, size - position) bytes of its clusters, and leaves the buffer on the sector of the position |
| `FatModel.SplitRead` | kernel/src/fs/fat32.c:246-303 | reading a and then b bytes equals reading a + b, in bytes, handle and cache |
| `FatModel.OpenedStands` | kernel/src/fs/fat32.c:190-225 | a file just opened stands at the start of its chain |
| `FatModel.PlaceIs` | kernel/src/fs/fat32.c:278-283 | counting sectors and clusters step by step is division with remainder |
| `FatChain.DirectoryRead` | kernel/src/fs/fat32.c:246-303 | a read of a directory of unknown size yields first the bytes of its chain, and exactly these if and only if it asks for no more, or the last entry is an end mark of the code or leads to an unreadable sector; otherwise the sector the entry leads to follows |
| `FatChain.DirectoryEnds` | kernel/src/fs/fat32.c:287-291 | after an end mark was met the directory has the size of its chain, and nothing more is read from it (unless that is a multiple of 4 GiB) |
| `FatChain.OpenedInChain` | kernel/src/fs/fat32.c:190-225 | a directory just opened stands at the start of its chain |
| `FatChain.CrossesEnd` | kernel/src/fs/fat32.c:281-297 | behind the last sector of a chain the entry of the last cluster alone decides whether the read goes on |
| `FatChain.EndMarkMissed` | kernel/src/fs/fat32.c:287-291 | a chain that ends with 0x0FFFFFFF on an ordinary volume: a read goes on with a sector in front of the data |
| `Fat.Reader.ReadSectors` | kernel/src/fs/mbr.c:28-35 | reads the sectors into the front of the buffer, or fails the bounds check without a change |
| `Fat.Reader.NextCluster` | kernel/src/fs/fat32.c:227-244 | refills the cache when needed and looks the entry up in it, as specified |
| `Fat.Reader.Cross` | kernel/src/fs/fat32.c:266-298 | what happens at the end of a sector, as specified |
| `Fat.Reader.Read` | kernel/src/fs/fat32.c:246-303 | the loop over pieces of sectors reads the same bytes as reading one byte after the other |
| `Fat.Reader.OpenEntry` | kernel/src/fs/fat32.c:190-225 | opens under the lowest free handle and leaves all others alone; fails exactly when there is none or the first sector cannot be read |
| `SchedModel.ResumeUndoesSuspend` | kernel/src/proc/sched.c:70-125 | a resumed task finds the registers it was suspended with, exactly when its selectors fit 16 bits |
| `SchedModel.SavedByName` | kernel/src/proc/sched.c:74-122 | saving puts each register of the frame into the field of its name, and restoring takes each one from there |
| `SchedModel.Task.Create` | kernel/inc/proc/task.h:47-64 | a new task is ready and has the registers of a start in kernel code at its callback, on its own stack |
| `SchedModel.FirstRun` | kernel/src/proc/sched.c:95-122 | the frame a new task first gets runs its callback on its stack, with interrupts enabled, kernel selectors and all general registers 0 |
| `SchedModel.IdleTick` | kernel/src/proc/sched.c:70-76 | without tasks an interrupt changes nothing |
| `SchedModel.ElectedIsUnique` | kernel/src/proc/sched.c:42-67 | the election has one outcome |
| `SchedModel.ElectionExists` | kernel/src/proc/sched.c:49-59 | there is a task to elect exactly when the list is empty or has a current or a ready task |
| `SchedModel.SearchEnds` | kernel/src/proc/sched.c:42-60 | the loop of the search stops after some number of rounds exactly when the list is empty or has a current or a ready task |
| `SchedModel.ReachedStep` | kernel/src/proc/sched.c:49-59 | every step of the search comes nearer to the end of the circle |
| `SchedModel.TickKeepsWf` | kernel/src/proc/sched.c:70-127 | at most one task is marked as running, and it is the current one |
| `SchedModel.TickCloser` | kernel/src/proc/sched.c:70-127 | a tick runs a waiting ready task or brings it nearer to the head of the circle |
| `SchedModel.BoundedWaiting` | kernel/src/proc/sched.c:19-67 | in every run, a task of a list of n that stays ready becomes current within n interrupts, plus one for each task added, plus the length of the list for each current task removed |
| `SchedModel.ResumeDelivers` | kernel/src/proc/sched.c:70-127 | in every run from the start, a resumed task gets, field by field, the registers last saved in its name, or those it was created with |
| `SchedModel.SavedForIs` | kernel/src/proc/sched.c:26-40 | registers are saved in the name of the interrupted task, but after the removal of the current task in that of the first one left |
| `SchedModel.SelfRemovalOverwrites` | kernel/src/proc/sched.c:26-40 | removing a task leaves the other contexts alone, exactly unless it is the current one and not the only one |
| `Sched.Scheduler.AddTask` | kernel/src/proc/sched.c:19-24 | the task becomes the first of the list |
| `Sched.Scheduler.FindReady` | kernel/src/proc/sched.c:42-60 | ends on the first ready task behind the current one, or on the current one, in the first round in which the loop of the search stops |
| `Sched.Scheduler.TimerInterrupt` | kernel/src/proc/sched.c:70-127 | saves, elects and restores as one step of the system |
| `Sched.Scheduler.Unlink` | kernel/src/proc/sched.c:26-35 | drops exactly the first task with the pid |
| `Sched.Scheduler.RemoveTask` | kernel/src/proc/sched.c:26-40 | a removal followed by an interrupt, as one step of the system |
| `PathText.JoinRoundTrip` | kernel/src/fshell/common.c:115-119 | taking a printed list of names apart gives the list back |
| `PathText.ComponentsSplit` | kernel/src/fshell/common.c:90-96 | a slash between two texts separates their components |
| `PathText.ResolvedIsNormal` | kernel/src/fshell/common.c:81-120 | a resolved path is absolute, without empty, "." or ".." components, and its components are the stack reduction of those of the text |
| `PathText.SpecialComponents` | kernel/src/fshell/common.c:104-110 | a dot changes nothing, two dots undo the step before them, and above the root there is nothing |
| `PathText.TrimmedIs` | kernel/src/fshell/common.c:63-78 | trimming takes off nothing but whitespace at both ends, and all of it |
| `PathText.IsSpaceIs` | kernel/src/std/string.c:280-282 | whitespace is the blank and the characters 9 to 13 |
| `PathText.RelativeWalksOn` | kernel/src/fshell/common.c:90-112 | a relative path leads on from the working directory |
| `PathText.AbsoluteStands` | kernel/src/fshell/common.c:90-94 | an absolute path stands for itself |
| `PathText.ResolvedFits` | kernel/src/fshell/common.c:114-119 | the resolved path is no longer than the text it comes from |
| `PathText.ResolveIdempotent` | kernel/src/fshell/common.c:81-120 | resolving again changes nothing, exactly when the path does not end in whitespace |
| `PathText.CommandsKeepNormal` | kernel/src/fshell/common.c:430-453 | every sequence of cd commands keeps the working directory in normal form |
| `PathText.ChangedIs` | kernel/src/fshell/common.c:430-453 | the working directory becomes the resolved path if there is an argument and that is a folder, and stays otherwise |
| `PathText.AlwaysInFolder` | kernel/src/fshell/common.c:430-453 | after every sequence of cd commands the working directory is where it was or a folder that a command found |
| `PathText.ThereAndBack` | kernel/src/fshell/common.c:430-453 | cd to a subfolder and then to ".." leads back |
| `CStrings.TrimWhitespace` | kernel/src/fshell/common.c:63-78 | strips whitespace from both ends in place |
| `CStrings.StrSpn` | kernel/src/std/string.c:168-181 | the longest prefix of accepted characters |
| `CStrings.StrPbrk` | kernel/src/std/string.c:198-210 | the first accepted character, or none |
| `CStrings.StrCmp` | kernel/src/std/string.c:89-95 | 0 exactly for equal texts |
| `CStrings.StrCat` | kernel/src/std/string.c:57-64 | the two texts one behind the other |
| `CStrings.Tokenizer.StrTok` | kernel/src/std/string.c:227-246 | for any delimiters: cuts off the next token and keeps the place behind it, so that the tokens that follow are those left over; earlier text stays |
| `CStrings.SlashTokens` | kernel/src/fshell/common.c:102-112 | with a slash as the delimiter the tokens are the components of the path |
| `Shell.Collect` | kernel/src/fshell/common.c:102-112 | the stack of token pointers holds the reduced components |
| `Shell.PrintPath` | kernel/src/fshell/common.c:114-119 | the text of the components in the buffer |
| `Shell.Shell.ResolvePath` | kernel/src/fshell/common.c:81-120 | the buffer holds the resolved path |
| `Shell.Shell.CommandCd` | kernel/src/fshell/common.c:430-453 | the buffer holds the resolved path if there is an argument and that is a folder, and is unchanged otherwise; it stays in normal form |
| `VfsTree.AttachKeepsWf` | kernel/src/proc/vfs.c:128-138 | appending a detached tree keeps child lists, parents and descendants right |
| `VfsTree.AttachedRight` | kernel/src/proc/vfs.c:128-138 | attaching keeps the forest well formed exactly when the node is no one's child, the folder is not inside it, and its next link is null |
| `VfsTree.LinkedLastIs` | kernel/src/proc/vfs.c:128-138 | attaching sets the node's parent, and changes no link but the one that leads to the node |
| `VfsTree.AddedIs` | kernel/src/proc/vfs.c:97-138 | a new node has its name, kind and parent and no links; every old node keeps its name, kind and parent, and no link changes but the one that leads to the new one |
| `VfsTree.DetachKeepsWf` | kernel/src/proc/vfs.c:140-149 | unlinking a child keeps the forest well formed and detaches exactly this child |
| `VfsTree.UnlinkedIs` | kernel/src/proc/vfs.c:140-149 | unlinking changes no field of any node but the one link that led to the child |
| `VfsTree.SubsApart` | kernel/src/proc/vfs.c:151-158 | the subtrees of different children have no node in common |
| `VfsTree.RemovedIsCut` | kernel/src/proc/vfs.c:140-163 | unlinking, removing the children and freeing the node cuts off exactly its subtree |
| `Vfs.FileSystem.RemoveNode` | kernel/src/proc/vfs.c:140-163 | ends, and removes exactly the subtree; other nodes, their order and their names stay |
| `Vfs.FileSystem.SearchNode` | kernel/src/proc/vfs.c:165-172 | the first child with the name |
| `VfsPaths.FirstNamedIs` | kernel/src/proc/vfs.c:165-172 | the child found is the first one with the name, and none is found exactly when there is none |
| `Vfs.FileSystem.Traverse` | kernel/src/proc/vfs.c:184-213 | the fold of first-match lookups over the components, with the latest mount substituted before each step |
| `VfsPaths.WalkDescends` | kernel/src/proc/vfs.c:191-209 | a path leads down the tree, also across mounts |
| `VfsPaths.WalkKept` | kernel/src/proc/vfs.c:184-213 | a new last child or a new mount does not change where earlier paths lead |
| `Vfs.FileSystem.InsertNode` | kernel/src/proc/vfs.c:128-138 | the node becomes the last child; the forest is well formed afterwards exactly if it was no one's child, did not hold the folder, and its next link was null |
| `Vfs.FileSystem.Create` | kernel/src/proc/vfs.c:234-253 | each error in its case; on success exactly one new last child of the folder, with the given name and kind, while every other node keeps its name, kind and parent, and its links but the one that leads to the new node |
| `VfsPaths.CreateThenOpen` | kernel/src/proc/vfs.c:234-257 | opening the path finds the new node, exactly when its name is not empty, nothing is mounted on the folder and no child had that name |
| `VfsPaths.MountsAfterCut` | kernel/src/proc/vfs.c:140-163 | cutting off a subtree leaves the mounts in order exactly when no mounted root goes with it |
| `Vfs.FileSystem.RemovePath` | kernel/src/proc/vfs.c:223-227 | each error in its case; on success exactly the subtree is gone, and the mounts are in order exactly if no mounted root was in it |
| `Vfs.FileSystem.MountAt` | kernel/src/proc/vfs.c:282-305 | for any node as the root: each error in its case; on success it is the last child and the first mount, and the forest is well formed exactly if its next link was null and it was neither a folder's child nor the root of the file system |
| `Vfs.FileSystem.Unmount` | kernel/src/proc/vfs.c:307-337 | takes exactly the latest mount of the point off, with its root |
| `VfsPaths.UnmountUndoesMount` | kernel/src/proc/vfs.c:282-337 | mounting and unmounting the same path restores mounts, child lists and links, on any earlier mounts, so that mounts come off last in, first out |
| `VfsPaths.MountShows` | kernel/src/proc/vfs.c:184-305 | what is looked up under the path of a mount is looked up among the children of the root mounted there, whatever was mounted or listed there before |
| `PrintfNumbers.NumberParsesBack` | kernel/src/std/stdkprintf.c:201-324 | a printed number of any size, with any width, precision and flags but "#", is read back as it was exactly when it has at most 32 digits and a negative one leaves a place for its sign; its length is the larger of its own and the width |
| `PrintfNumbers.WordKept` | kernel/src/std/stdkprintf.c:201-324 | for a 32-bit number without precision this means that zeros are not to fill more than 32 places with a sign |
| `PrintfNumbers.LongLosesDigit` | kernel/src/std/stdkprintf.c:328-350 | 2^32 in binary is not read back as it was |
| `PrintfNumbers.PrecisionLosesSign` | kernel/src/std/stdkprintf.c:233-298 | -1 with the precision 32 is not read back as it was |
| `PrintfNumbers.ConversionParsesBack` | kernel/src/std/stdkprintf.c:783-897 | the same for the conversions d, i, u, x, X, o and b of an argument of 8 to 64 bits |
| `PrintfOutput.FormatParsesBack` | kernel/src/std/stdkprintf.c:641-995 | a format that is one number directive, with any flags, width, precision and size but a "#" that counts: its output is read back, in base 10 for d, i and u, 16 for x and X, 8 for o and 2 for b, as the argument modulo its size, exactly when the number keeps its value |
| `PrintfNumbers.DigitsMean` | kernel/src/std/stdkprintf.c:311-321 | the digits stand for the value, in every base |
| `PrintfPrefix.SignAndPrefix` | kernel/src/std/stdkprintf.c:233-298 | without width and precision: a number is a sign, the prefix of the base but for the value 0, and the digits, exactly when they fit the 32 places of the conversion buffer together |
| `PrintfPrefix.DigitsSurvive` | kernel/src/std/stdkprintf.c:233-298 | with any width, precision and flags: all digits are printed exactly when the characters that make room for the prefix are leading zeros |
| `PrintfPrefix.HashLosesDigits` | kernel/src/std/stdkprintf.c:255-262 | the format "%#4x" turns 0xABCD into "0xcd" |
| `PrintfPrefix.PrefixIsDropped` | kernel/src/std/stdkprintf.c:263-280 | 32 binary digits leave no place for a prefix |
| `PrintfFormat.DirectiveRead` | kernel/src/std/stdkprintf.c:668-781 | a directive with any flags, width, precision, length and last character is read as it is written, wherever it stands in the format |
| `PrintfShape.DigitsOfNumeral` | kernel/src/std/stdkprintf.c:301-324 | the digits in the conversion buffer are the last 32 of the numeral: the value in its base, in the case asked for, without zeros in front |
| `PrintfShape.ValueIs` | kernel/src/std/stdkprintf.c:314-321 | one more digit, the letters in order, makes a numeral's value base times as large and adds its own |
| `PrintfShape.NumberIsShown` | kernel/src/std/stdkprintf.c:201-324 | every number, with every width, precision and set of flags: sign, prefix, zeros and numeral in this order, as far as the 32 places go from the end; spaces behind it with "-", in front of it without, none where zeros fill the field |
| `PrintfOutput.ArgumentRead` | kernel/src/std/stdkprintf.c:828-893 | the argument of a number conversion is the raw one modulo 2 to the 8, 16, 32 or 64, in the range of the signed or unsigned numbers of that size |
| `PrintfOutput.DirectivePrints` | kernel/src/std/stdkprintf.c:783-985 | what each directive prints: a number in its base with the sign and prefix its flags ask for; of a text the first characters up to the precision, of a character the lowest byte, each in its field as "-" says; a pointer as 8 upper-case hexadecimal digits; any other character itself |
| `PrintfOutput.FormatPrints` | kernel/src/std/stdkprintf.c:641-988 | a list of texts and directives prints what its items print, one behind the other, each directive with the arguments behind those of the one before |
| `Printf.Sink.OutRev` | kernel/src/std/stdkprintf.c:201-230 | the text reversed, in its field |
| `Printf.Sink.NtoaFormat` | kernel/src/std/stdkprintf.c:233-298 | digits with zeros, prefix and sign in their field |
| `Printf.Sink.NtoaLong` | kernel/src/std/stdkprintf.c:301-324 | the text of a number |
| `Printf.Sink.OutFormat` | kernel/src/std/stdkprintf.c:641-988 | the whole output is put out, stored or not |
| `Printf.Sink.Terminate` | kernel/src/std/stdkprintf.c:990-991 | the terminating zero at the end of the text or of the buffer |
| `Printf.VSnprintf` | kernel/src/std/stdkprintf.c:1033-1036 | the result is the length of the whole output (see PrintfOutput.FormatPrints), whatever fits; the buffer gets its first characters and a terminating zero; nothing is written outside of the given size |

## Left out

- The out-of-memory paths of the heap: line 34 of liballoc.c adds the mapping offset to a null result, so the checks never fire; the page source is required to succeed when the heap asks for it.
- Requests so large that the size computations wrap around at 32 bits, the unreachable branch for size 0, `calloc`, and interrupt locking around the heap: a call is one step.
- KernelHeap.Heap.Free: pointers are null, live, or freed before with their header, which still says so, in a gap; an arbitrary value would make the code read arbitrary memory. Old headers that `krealloc` copies over are not forgotten by the model.
- RbTree.Tree.Delete: what happens when the code reads through the null pointer of a missing sibling; the model stops there and reports it.
- PmmBoot.Init: the memory behind the bitmap pointer is one array with any content; where it lies (at address 0 if no region holds the bitmap) and what a write behind the bitmap destroys there is not told.
- The page table operations require page 0 to be in use, since its address is the null pointer; `pmm_init` may leave it free, see `PmmBoot.PageZeroKept`.
- Vmm.Vmm.UnmapPage: requires that the frame of the page has its bit in the memory behind the bitmap pointer, as all frames have after `PmmBoot.Init`; for a device frame, such as one of the framebuffer, that bit lies behind the bitmap itself (`PmmBoot.OwnCell`), and is cleared all the same.
- Page tables are read and written at their physical addresses (line 106 of vmm.c), so the model holds while frames are mapped to themselves; under the directory that `vmm_init_pd` builds they are not.
- Page table code on ranges that wrap around the address space or with frames that hold page tables; speculative refills of the translation cache between two instructions; the remapping of the kernel's sections at the end of `vmm_init_pd`; loading cr3.
- The root directory of a FAT volume, which the code walks as raw sectors, closing files, name lookup and short names; the disk is a function from sector numbers to sectors, and the boot sector's values are parameters.
- Wrap-around of the position of a directory of unknown size: the position is a natural number, and only its place in a sector decides what is read.
- The FPU state, cr3, `popa` and `iret` in the timer handler, and the allocation of pids: tasks are added with a pid that no listed task has.
- Sched.Scheduler.TimerInterrupt: requires that the election can end (see SchedModel.SearchEnds); with listed tasks of which none is ready and none current, the code's search goes round for ever.
- Names, data and timestamps of file system nodes are not freed or updated.
- Vfs.FileSystem.Create: requires the kind to be file or folder; for any other, line 45 of vfs.c writes through a null pointer.
- Path texts that do not fit the shell's buffers, and parent paths that do not fit the 256 bytes that `create` has for them.
- Output of 2^32 characters or more, where the count would wrap around.
- Floating-point conversions, which are compiled out, output through a callback or character by character, and formats that end inside a directive, for which the code reads behind the format.
- Printf.VSnprintf: requires formats and text arguments without a NUL inside, where C ends them.
- PrintfOutput.FormatPrints: directives whose last character is a flag, a digit, a star, a point or a length letter (as in `%.-`), which the code prints as that character, are not among its items.
- Arguments of a wrong type or missing ones, which are undefined in C, read as 0 or as an empty text; the negation of the smallest integer, which overflows in C, is taken to wrap around.
- Port input and output, interrupts, segments, the framebuffer, the keyboard, the shell's commands and the editor.
