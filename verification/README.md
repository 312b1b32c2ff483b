# Verified models of four kernel components

This Dafny project models the parts of the xsu kernel that keep state over long runs, and proves what they
promise their callers:

* **The buddy page allocator** (`kernel/mm/buddy.c` over `include/xsu/list.h`): page records, intrusive
  circular lists and counters in arrays, changed in place (`Buddy.dfy`, `Lists.dfy`), proved against an
  abstract state that only knows which blocks are outstanding (`BuddyBlocks`, `BuddyState`, `BuddySpec`,
  `BuddyInit`). The main results: the five lists are a function of the set of free pages; allocation fails
  only when it must; the level and flag probes of the coalescing loop never read a stale level; releasing all
  pages one by one counts in binary; and when the region overlaps the boot allocator's pages.
* **The FAT32 data path** (`kernel/fs/fscache/fscache.c`, `kernel/fs/fat/utils.c`, and the table, file, name
  and flushing parts of `kernel/fs/fat/fat.c` and `kernel/fs/fat/usr.c`). From the bottom: write-back clock
  caches over a disk of sectors (`BlockCache`, `Clock`, `FsCache`, `CacheRuns`), the FAT as a table behind a
  two-slot cache and two disk copies (`FatTable`, `FatLayout`, `FatVolume`), cluster chains and their growth
  (`FatChains`, `FatGrowth`), files as byte sequences (`FatData`, `FatFile`, `FatFiles`), closing, removing
  and mounting anew (`FatClose`, `FatRemove`, `FatRemount`), where all of it lies on the card (`FatDisk`),
  runs over any number of open files that follow a state machine (`FatModel`, `FatRuns`), and 8.3 names
  (`FatNames`). The main results: what a write does to the table and whether it succeeds is decided by a
  function of the state before it; a write splices, and a read after it returns the bytes; over every run of
  writes, reads, seeks, closes and removals chains stay valid and disjoint and each file follows its own
  operations, failed writes included; after a close the disk alone shows the file, byte for byte at the
  addresses that the layout gives. Layouts follow the Microsoft FAT32 File System Specification v1.03,
  sections "FAT Data Structure", "FAT Type Determination", "FAT32 FSInfo Sector Structure and Backup Boot
  Sector" and "FAT Directory Structure".
* **The multilevel-feedback scheduler** (`kernel/pc/shed.c`, `kernel/pc/pc.c`): a state machine (`Sched`), its
  partition invariant and runs (`SchedInvariant`, `SchedRuns`), what each step does to the tasks involved,
  told from the states before and after (`SchedEffects`), bounded waiting (`SchedWaiting`, `SchedQuiet`), and
  the in-place lists, task structs and ASID bitmap that follow it (`Scheduler`, `Asid`).
* **The boot page finder** (`kernel/mm/bootmm.c`): first fit with skips (`BootMem`).

`Bits.dfy` has the bit operations the sources use (XOR with a power of two, masks, shifts) with their
arithmetic readings. `dafny verify dfyconfig.toml` checks the whole project.

## How to read the contracts

Methods that change state are specified by a function of the old state; what that function guarantees is
proved as lemmas. In the FAT part a *view* is what a cache shows of the disk: the slot if the block is cached,
else the disk. `Valid()` of a file says, among other things, that its clusters form a chain that starts at the
entry's start cluster and covers its size.

Preconditions that are the source's own demands: pages are freed with the order they were allocated with;
clusters have 1, 2, 4 or 8 sectors, the FAT has an entry for every cluster, more than 7 sectors are reserved;
the two copies of the FAT agree when the volume is mounted, which the source assumes without checking;
positions plus lengths stay below 2^32; each file has one handle, which is not used after its removal; a step
that gives the processor away finds a ready task; the frame map has one entry beyond the last frame, which
`find_pages` reads (`kernel/mm/bootmm.c:277`). The disk reads and writes whole sectors and never fails. The
clock readings are inputs.

Where a promise does not hold of the code, the exact condition is proved:

* `init_buddy` keeps the boot allocator's pages out of its region if and only if the last of them is not a
  multiple of 16 (`InitBuddy`, `RegionAvoidsIff`): the end addresses are those of the last byte, so rounding
  the last page up to 16 leaves it where it is, and the final loop frees it. It happens with 128.5 MB
  (`PageRecordsInRegion`).
* `fs_alloc` does not look at the cluster it takes. It takes one that is in use when FSI_Nxt_Free + 1 names
  one and is not above FSI_Free_Count + 1 (`Volume.Alloc`, `InUseHintTaken`); that cuts the chain through it
  and lets two files share it (`TakenClusterCutsChain`, `TakenClusterIsShared`). With a distrusted hint and no
  free cluster, or with FSI_Nxt_Free unknown, it takes a number that names no data cluster (`FullTableChoice`,
  `UnknownHint`). When it fails, the chosen cluster stays marked as an end of chain, and it fails although
  lower clusters are free, since it scans upwards only (`LowerClusterUnseen`; exactly when is in
  `StepSucceedsIff` for one allocation, `GrowSucceedsIff` for several). Starting from a good hint neither case
  arises before the first failure, and no live file's cluster is ever taken (`GoodUntilFailure`,
  `ChoiceUnowned`).
* `fs_clr_4k` keeps the cache coherent if and only if the block reads as zeros and no slot but the victim
  holds it (`ClockCache.Clear`); `fs_write` calls it for erased clusters that are not cached.
* `fs_alloc` and `fs_clr_4k` use partition-relative sectors where the lookups add `base_addr`: right exactly
  for a partition at sector 0 (`EraseHitsIff`). Growing a file therefore requires base 0; reading, and writing
  inside the chain, do not.
* `get_filename` undoes `fs_next_slash` exactly for the names in `NameRoundTrip`; different names meet one
  entry exactly as `SameFieldsIff` says.
* `pc_time_add` is off by 2^32 for a zero addend, so `sleep(0)` sleeps for 2^32 cycles (`TimeAddExactIff`,
  `WakeTimeExactIff`).
* `find_pages` cannot tell a run at frame 0 from no run (`FindZeroIff`); with the kernel in frame 0 this does
  not arise (`AllocFailsIff`). The frame of the last allocation lies in neither search window, but it is in
  use, so that the search misses nothing (`AllocFailsOnlyWhenFull`).
* `bootmm_alloc_pages` rounds up in 32 bits: a request above 4 GB - 4096 asks for no page (`PageCountIs`).
* The comment above `buddy_list_add` speaks of small and large memory; order 0 is the only ascending list.
* `__getnexttask` has no return statement; the model returns `next`.

## Model

| member | source | states |
|---|---|---|
| Lists.ListLink | include/xsu/list.h:26-32 | Three-node relinking done in place equals the pure link update |
| Lists.ListAdd | include/xsu/list.h:34-37 | Insertion after a node, in place |
| Lists.ListDelInit | include/xsu/list.h:44-61 | Unlinking in place; the removed node becomes a ring of its own |
| Lists.ListEmpty | include/xsu/list.h:75 | True exactly when the ring behind the head represents the empty sequence |
| Lists.LinkKeepsRing | include/xsu/list.h:26-42 | Linking a new node into a circular list is insertion into the sequence it represents |
| Lists.UnlinkKeepsRing | include/xsu/list.h:44-61 | Unlinking is removal from that sequence |
| Lists.LinkKeepsOther | include/xsu/list.h:26-32 | Lists without the nodes involved are not affected by an insertion |
| Lists.UnlinkKeepsOther | include/xsu/list.h:44-61 | ... nor by a removal |
| BuddyInit.XorIsBuddy | kernel/mm/buddy.c:174-180 | The XOR-computed partner index is the other half of the enclosing aligned window |
| Buddy.BuddySystem.LinkSorted | kernel/mm/buddy.c:25-104 | The search loops of the sorted insertion keep order 0 ascending and the others descending, and insert exactly the new page |
| Buddy.BuddySystem.BuddyListAdd | kernel/mm/buddy.c:25-104 | Sorted insertion with the list and its ring in step |
| BuddyState.InsertSorted | kernel/mm/buddy.c:25-104 | Inserting at the found position keeps the order and adds exactly one element |
| BuddyState.CanonicalUnique | kernel/mm/buddy.c:25-104 | A set of free pages has one canonical family of five lists: contents and order are determined |
| BuddyState.FreeListsCanonical | kernel/mm/buddy.c:308-331 | The lists of a state are the maximal aligned free windows, sorted |
| BuddyBlocks.AddBlock | kernel/mm/buddy.c:308-331 | Which blocks exist after a window whose buddy is not free is given back |
| BuddyBlocks.RemoveBlock | kernel/mm/buddy.c:370-395 | Which blocks exist after a block is taken out |
| BuddyState.AddCanonical | kernel/mm/buddy.c:321-331 | Giving a non-mergeable window back to its list keeps the lists canonical |
| BuddyState.RemoveCanonical | kernel/mm/buddy.c:375-380 | Taking one block off its list leaves the canonical lists of the remaining pages |
| Buddy.BuddySystem.ProbeHitsHead | kernel/mm/buddy.c:174-200 | The probed partner lies in the region and heads an outstanding block or a free block of order at most the probed one: stale levels inside a block are never read |
| Buddy.BuddySystem.ProbeAnswer | kernel/mm/buddy.c:181-199 | At such a head, level and flag together tell exactly whether it is a free block of the probed order |
| Buddy.BuddySystem.JudgeInSameBuddy | kernel/mm/buddy.c:174-200 | The answer is yes if and only if the partner window is entirely free, equivalently a free block of that very order |
| Buddy.BuddySystem.MergeWithBuddy | kernel/mm/buddy.c:311-319 | One turn of the coalescing loop: the merged window is free, aligned one order up, and the lists represent all free pages but it |
| Buddy.BuddySystem.Coalesce | kernel/mm/buddy.c:308-320 | The loop ends with a window whose buddy is not free, or at order 4, and the lists represent the rest |
| Buddy.BuddySystem.FreePageBlock | kernel/mm/buddy.c:268-344 | Releasing with the allocated order follows the abstract release; a page that heads no outstanding block changes no record, link, counter or list |
| Buddy.BuddySystem.FindOrder | kernel/mm/buddy.c:359-366 | The first order from the requested one whose list is not empty |
| Buddy.BuddySystem.PickBlock | kernel/mm/buddy.c:370-376 | The list tail for a split, the list head on an exact match |
| Buddy.BuddySystem.SplitDown | kernel/mm/buddy.c:382-393 | Splitting lists the upper halves, so the lists represent the free pages but the block handed out |
| Buddy.BuddySystem.AllocPageBlock | kernel/mm/buddy.c:352-397 | Result and new state are those of the abstract allocation; a failure changes nothing |
| BuddySpec.AllocFailsIff | kernel/mm/buddy.c:359-367 | Allocation fails exactly when no aligned window of the requested size is free |
| BuddySpec.AllocIsBestFit | kernel/mm/buddy.c:359-376 | The block used has the smallest sufficient order; it is the lowest such block, except that an exact match above order 0 takes the highest |
| BuddySpec.AllocKeepsWellFormed | kernel/mm/buddy.c:352-397 | The block handed out was free, aligned and disjoint from all others; exactly its pages leave the free set |
| BuddySpec.FreeKeepsWellFormed | kernel/mm/buddy.c:268-344 | Exactly the pages of the released block join the free set |
| BuddySpec.AllocThenFree | kernel/mm/buddy.c:268-397 | An allocation followed by its release restores the state |
| Buddy.BuddySystem.AllocateAndRelease | kernel/mm/buddy.c:268-397 | The same on the intrusive lists: contents and order of every list are restored |
| BuddySpec.RunKeepsWellFormed | kernel/mm/buddy.c:268-397 | Well-formedness over every run of allocations and releases |
| Buddy.HistoryIndependent | kernel/mm/buddy.c:25-104 | Two systems with the same free pages, whatever they went through, have the same lists, order included, and the same counters |
| Buddy.BuddySystem.Execute | kernel/mm/buddy.c:268-397 | A run on the arrays ends with the canonical lists of the state the abstract run reaches |
| Buddy.BuddySystem.ListsAreCanonical | kernel/mm/buddy.c:25-104 | In every valid state the concrete lists are a function of the abstract state |
| BuddySpec.Tiling | kernel/mm/buddy.c:268-397 | Every page of the region lies in exactly one free or outstanding block |
| BuddySpec.ListedIsFree | kernel/mm/buddy.c:110-125 | List lengths weighted by block size add up to the number of free pages |
| BuddySpec.Conservation | kernel/mm/buddy.c:110-125 | Listed pages plus outstanding pages make up the region |
| Buddy.BuddySystem.GetAllocationState | kernel/mm/buddy.c:110-125 | The residual computed from the counters plus 4 KB per outstanding page is the total |
| Buddy.BuddySystem.InitPages | kernel/mm/buddy.c:147-159 | Every page allocated, without a level, with a one-node ring |
| BuddyInit.IntervalBlocks | kernel/mm/buddy.c:256-259 | The blocks of an interval of i pages below order 4 are those of the set bits of i |
| BuddyInit.BinaryCounter | kernel/mm/buddy.c:256-259 | The canonical lists of i released pages: one block of order k per set bit k of i, at the place of that bit, and i/16 blocks of order 4 |
| BuddyInit.InitComplete | kernel/mm/buddy.c:256-259 | When the loop ends only order 4 is populated |
| Buddy.BuddySystem.ReleaseAll | kernel/mm/buddy.c:256-259 | The final loop reaches the valid state with nothing outstanding |
| Buddy.BuddySystem.ReleaseOne | kernel/mm/buddy.c:256-259 | After the i-th release the lists on the arrays spell i in binary: as many order-k entries as bit k of i, and i/16 of order 4 |
| Buddy.BuddySystem.InitBuddy | kernel/mm/buddy.c:209-260 | The region is aligned to 16 pages and ends up as (end-start)/16 order-4 blocks; it starts at the last boot page rounded up, so a non-empty region shares no page with a boot region if and only if that page is not a multiple of 16 |
| BuddyInit.RegionAvoidsIff | kernel/mm/buddy.c:233-242 | The region contains no last page of a boot region if and only if the highest one is not a multiple of 16; otherwise it starts with it |
| BuddyInit.BootPageInRegion | kernel/mm/buddy.c:241 | A boot region ending with page 4096: the region starts with page 4096 |
| BuddyInit.PageRecordsInRegion | kernel/mm/buddy.c:212-241 | A machine with 32896 pages: the page records end with page 4288, and the region starts with it |
| Buddy.BuddySystem.KernelEndFrame | kernel/mm/buddy.c:231-238 | The loop finds the page of the highest end address |
| Clock.VictimOf | kernel/fs/fscache/fscache.c:6-50 | A dirty slot only if all are, then the one under the hand; a referenced clean slot only if every clean one is referenced |
| Clock.VictimIsBest | kernel/fs/fscache/fscache.c:6-50 | A dirty victim only if every slot is dirty (then the slot under the hand); an unreferenced clean slot is preferred, earliest in clock order |
| Clock.SweepKeepsContents | kernel/fs/fscache/fscache.c:12-26 | The sweep changes reference bits only |
| Clock.SecondSweepSame | kernel/fs/fscache/fscache.c:29-38 | The second sweep sees the dirty bits of the original slots |
| FsCache.ClockCache.SweepUnused | kernel/fs/fscache/fscache.c:11-26 | Sweep 1 on the slots: where it stops, which reference bits it cleared |
| FsCache.ClockCache.SweepClean | kernel/fs/fscache/fscache.c:28-38 | Sweep 2 on the slots |
| FsCache.ClockCache.Victim | kernel/fs/fscache/fscache.c:6-50 | The loops compute the specified victim and leave the hand just past it |
| BlockCache.WriteBackTransparent | kernel/fs/fscache/fscache.c:53-66 | Writing a slot back, to both copies for the FAT, keeps coherence and the view of every block |
| BlockCache.FlushTransparent | kernel/fs/fscache/fscache.c:168-181 | The same for any slot, and only cached blocks change on the disk |
| BlockCache.LoadTransparent | kernel/fs/fscache/fscache.c:80-89 | Reusing a clean slot for an uncached block keeps coherence and every view |
| BlockCache.ClearCoherentIff | kernel/fs/fscache/fscache.c:106-112 | A clean slot may become a block of zeros, with every view kept, if and only if the block read as zeros and no other slot holds it |
| BlockCache.StoreImage | kernel/fs/fat/fat.c:611-622 | Writing into a cached block changes the view of that block alone |
| BlockCache.ReferenceTransparent | kernel/fs/fscache/fscache.c:91-92 | Reference bits do not matter to the view |
| BlockCache.DiscardClean | kernel/fs/fat/fat.c:98-114 | Discarding clean caches leaves every block reading the same |
| FsCache.ClockCache.WriteBack | kernel/fs/fscache/fscache.c:53-66 | The slot goes to its block, and to the second FAT copy where there is one |
| FsCache.ClockCache.Evict | kernel/fs/fscache/fscache.c:79-84 | Victim choice and write-back keep every view |
| FsCache.ClockCache.Fetch | kernel/fs/fscache/fscache.c:69-95 | After a read the slot that held the block, or else the victim, holds it and is marked as referenced; no view changes, and only cached blocks change on the disk |
| FsCache.ClockCache.Clear | kernel/fs/fscache/fscache.c:98-115 | The victim becomes a zeroed clean slot; the cache stays coherent and every view is kept if and only if the block read as zeros and no slot but the victim held it |
| FsCache.ClockCache.Poke | kernel/fs/fat/fat.c:614-617 | One stored byte is one changed byte in the view |
| FsCache.ClockCache.SetUint32 | kernel/fs/fat/utils.c:35-41 | Four byte stores are one 32-bit little-endian store in the view |
| FsCache.ClockCache.FlushAll | kernel/fs/fat/fat.c:357-363 | Flushing leaves every slot clean and every view unchanged |
| FsCache.ClockCache.Reset | kernel/fs/fat/fat.c:98-114 | All slots empty |
| FsCache.ClockCache.Discard | kernel/fs/fat/fat.c:98-114 | Emptying flushed caches loses nothing |
| CacheRuns.Apply | kernel/fs/fscache/fscache.c:69-115 | One read, byte store, clear of an erased and uncached block, or flush behaves as on a plain array of blocks |
| CacheRuns.ApplyAll | kernel/fs/fscache/fscache.c:69-95 | So does any sequence of them, whatever was evicted in between |
| CacheRuns.LastWriteWins | kernel/fs/fscache/fscache.c:69-95 | A byte reads as the last value stored at its place |
| FatTable.Get32Set32 | kernel/fs/fat/utils.c:23-41 | Reading back a stored 32-bit field gives the value |
| FatTable.Get16Set16 | kernel/fs/fat/utils.c:18-33 | The same for 16 bits |
| FatTable.SetGetIdentity | kernel/fs/fat/utils.c:23-41 | Storing what was read changes no byte |
| FatTable.EntryPlace | kernel/fs/fat/utils.c:115-120 | The shift-and-mask arithmetic finds sector c/128 and byte 4*(c%128) of the FAT |
| FatTable.MergeIsBitwise | kernel/fs/fat/utils.c:105-107 | The masking expression replaces the 28 low bits and keeps the top four |
| FatTable.SetEntry | kernel/fs/fat/utils.c:105-108 | Storing one word changes one entry of the table |
| FatTable.MergeEntry | kernel/fs/fat/utils.c:102-108 | The read-modify-write on the sector is the replacement of one entry in the table |
| FatTable.ModifiedEntries | kernel/fs/fat/utils.c:90-112 | Afterwards the entry reads as the value cut to 28 bits; all others and all top nibbles are kept |
| FatVolume.Volume.GetFatEntryValue | kernel/fs/fat/utils.c:70-87 | Reads the 28 bits of the entry through the two-slot cache; the table does not change |
| FatVolume.Volume.ModifyFat | kernel/fs/fat/utils.c:90-112 | The FAT refines a map: one entry changes, through eviction and byte encoding; only FAT sectors are written |
| FatLayout.FsWa | kernel/fs/fat/utils.c:44-51 | The loop computes the exponent |
| FatLayout.Log2Floor | kernel/fs/fat/utils.c:44-51 | ... which is the integer logarithm |
| FatLayout.Layout.TagIsSector | kernel/fs/fat/utils.c:123-126 | The first sector of a cluster, where the block cache looks for it (`ClusterAddress` says where that is); it lies in the data area |
| FatDisk.ClusterAddress | kernel/fs/fat/utils.c:123-126 | Cluster c starts at sector base + reserved + 2 * sectors per FAT + (c - 2) * sectors per cluster |
| FatDisk.FirstCluster | kernel/fs/fat/fat.c:80 | Cluster 2 starts where the second copy of the FAT ends |
| FatLayout.Layout.ClustersApart | kernel/fs/fat/utils.c:123-126 | Distinct clusters occupy disjoint sectors |
| FatLayout.Layout.SectorRoundTrip | kernel/fs/fat/utils.c:123-131 | The inverse conversion finds the cluster of every one of its sectors |
| FatLayout.Layout.FatBelowData | kernel/fs/fat/utils.c:115-126 | FAT sectors of in-range clusters, and their copies, never meet data sectors |
| FatLayout.Layout.PositionSplit | kernel/fs/fat/fat.c:427-430 | Shift and mask split a file position into cluster index and byte |
| FatLayout.Layout.Lacking | kernel/fs/fat/fat.c:558-602 | The number of clusters a chain lacks: with them it holds the bytes needed, with one less it does not |
| FatLayout.Layout.EraseHitsIff | kernel/fs/fat/fat.c:542 | The erased sectors are the cluster's own if and only if the partition starts at sector 0 |
| FatChains.FirstFree | kernel/fs/fat/fat.c:487-507 | The smallest free cluster from a start on, or the no-cluster value |
| FatVolume.Volume.NextFree | kernel/fs/fat/fat.c:487-507 | The scan computes it |
| FatVolume.CanAllocIff | kernel/fs/fat/fat.c:515-519 | The guard: the cluster taken is free exactly when the hint is, or it exceeds its limit and some cluster is free |
| FatVolume.GoodHint | kernel/fs/fat/fat.c:515-519 | A hint naming a free cluster always suffices |
| FatVolume.InUseHintTaken | kernel/fs/fat/fat.c:515-519 | FSI_Nxt_Free 2, FSI_Free_Count 1000, cluster 3 in use: cluster 3 is taken |
| FatVolume.FullTableChoice | kernel/fs/fat/fat.c:515-523 | A full table and a distrusted hint: the choice is 0xFFFFFFFF, whose entry would lie beyond the end of the FAT |
| FatVolume.UnknownHint | kernel/fs/fat/fat.c:515-523 | FSI_Nxt_Free 0xFFFFFFFF: the choice is entry 0, no data cluster |
| FatGrowth.StepSucceedsIff | kernel/fs/fat/fat.c:530-537 | An allocation succeeds if and only if something is free beyond the cluster it takes; the next hint is the first such cluster |
| FatGrowth.GrowIsGrown | kernel/fs/fat/fat.c:571-602 | Any number of allocations and links: free clusters and the first choice are taken, only entries of the longer chain change, and the hint is good or spent on the lost cluster |
| FatGrowth.EnoughFree | kernel/fs/fat/fat.c:510-548 | k free clusters beyond the first choice are enough for k allocations |
| FatGrowth.GrowSucceedsIff | kernel/fs/fat/fat.c:510-548 | They are also necessary, unless a later choice can fall back below the first one |
| FatGrowth.LowerClusterUnseen | kernel/fs/fat/fat.c:530-535 | Cluster 3 chosen, cluster 2 free: the allocation fails and cluster 3 is lost |
| FatVolume.Volume.Alloc | kernel/fs/fat/fat.c:510-548 | For every choice that names a data cluster, free or in use: it becomes an end of chain and no other entry changes; the call fails exactly when nothing is free beyond it, and then the hint is kept; on success it is erased and the new hint names a free cluster. It was free if and only if the hint was, or exceeded its limit |
| FatVolume.Volume.EraseCluster | kernel/fs/fat/fat.c:541-543 | Exactly the sectors counted from the start of the card are zeroed; with the partition at sector 0 these are the cluster, and the FAT view is unchanged |
| FatVolume.Volume.constructor | kernel/fs/fat/fat.c:117-129 | A mount starts with empty caches and the FSInfo of sector 1 |
| FatVolume.Volume.Framed | kernel/fs/fat/utils.c:70-112 | Writes outside the FAT copies leave the table as it is |
| FatChains.ChainUnique | kernel/fs/fat/fat.c:440-445 | A start cluster has at most one chain |
| FatChains.AppendCluster | kernel/fs/fat/fat.c:590-595 | Linking a cluster that is not the chain's own behind the last one gives the longer chain, still acyclic, in range and terminated |
| FatChains.AppendGrows | kernel/fs/fat/fat.c:590-595 | Only that cluster is added and only entries of the new chain change |
| FatChains.GrowthSparesOthers | kernel/fs/fat/fat.c:590-595 | A disjoint chain that does not own the allocator's first choice stays a chain, disjoint from the longer one |
| FatChains.FailureSparesOthers | kernel/fs/fat/fat.c:574-576 | ... also when an allocation fails and leaves a cluster marked |
| FatChains.TakenClusterCutsChain | kernel/fs/fat/fat.c:522-523 | Taking a cluster out of the middle of a chain ends that chain there; its rest is a chain that nothing leads to |
| FatChains.TakenClusterIsShared | kernel/fs/fat/fat.c:590-595 | Linking it behind another chain makes the two files share it |
| FatChains.GrowthKeepsFamily | kernel/fs/fat/fat.c:574-595 | Growing one file, a failed allocation included, keeps all live chains valid and pairwise disjoint, and the lost cluster belongs to none |
| FatVolume.Volume.ReleaseChain | kernel/fs/fat/usr.c:22-33 | Terminates on every FAT and zeroes exactly the entries reachable from the start cluster, keeping top nibbles |
| FatChains.ReleaseIsReachable | kernel/fs/fat/usr.c:22-33 | What the loop zeroes, on cyclic and cross-linked tables too |
| FatChains.ChainReach | kernel/fs/fat/usr.c:22-33 | On an acyclic chain that is exactly the chain |
| FatChains.ReleaseKeepsFamily | kernel/fs/fat/usr.c:22-33 | Removing one file frees its clusters alone and keeps the other chains |
| FatChains.ReleaseSparesOther | kernel/fs/fat/usr.c:22-33 | A disjoint chain survives the removal |
| FatData.Stored | kernel/fs/fat/fat.c:439-472 | The bytes of a chain: as many as its clusters hold |
| FatData.StoredSlice | kernel/fs/fat/fat.c:439-472 | Cluster k of the chain holds the k-th stretch of the file |
| FatData.StoredUpdate | kernel/fs/fat/fat.c:606-644 | Rewriting one cluster splices its bytes into the file |
| FatData.StoreSplice | kernel/fs/fat/fat.c:606-644 | So does writing part of a cluster |
| FatFile.StartStored | kernel/fs/fat/fat.c:577-578 | The two halves of the start cluster read back; no other byte of the entry changes |
| FatFile.FatFile.constructor | kernel/fs/fat/fat.c:318-343 | Opening: empty data cache, position 0, given the directory entry |
| FatFile.FatFile.Grab | kernel/fs/fat/fat.c:574-576 | Allocation seen from the file: none of its clusters is touched |
| FatFile.FatFile.LinkFirst | kernel/fs/fat/fat.c:577-578 | An empty file gets its start cluster |
| FatFile.FatFile.LinkLast | kernel/fs/fat/fat.c:594-595 | A new cluster is linked behind the last one |
| FatFile.FatFile.Extend | kernel/fs/fat/fat.c:590-599 | One step of the growth that the state before the call decides: the file grows by one cluster of zeros, linked behind the last, or the cluster chosen is marked and lost because nothing is free beyond it |
| FatFile.FatFile.Advance | kernel/fs/fat/fat.c:586-601 | The step to the next cluster, allocating behind the last; growth and its failure are those decided when the write began |
| FatFile.FatFile.OpenCluster | kernel/fs/fat/fat.c:571-602 | The start cluster and the walk to the cluster of the position; growth and its failure are those decided when the write began |
| FatFile.FatFile.StoreBytes | kernel/fs/fat/fat.c:607-622 | One cluster's share of a write, spliced at its place |
| FatFile.FatFile.WriteClusters | kernel/fs/fat/fat.c:604-644 | The cluster-by-cluster loop has written the buffer, or the part of it up to the end of the clusters where the growth decided when the write began ended |
| FatFile.FatFile.GrowthFacts | kernel/fs/fat/fat.c:571-602 | Growth decided by the table, the chain and FSInfo: no more clusters than needed, free ones and the first choice; it fails only when they do not suffice and nothing is free beyond the one that is lost; the hint stays untouched without growth and good after it |
| FatFile.FatFile.RoomSuffices | kernel/fs/fat/fat.c:510-548 | Growth succeeds if as many clusters are free beyond the allocator's choice as the file lacks |
| FatFile.FatFile.RoomNeeded | kernel/fs/fat/fat.c:510-548 | ... and only then, as long as nothing below the choice is free or the hint is trusted to the end |
| FatFile.FatFile.Write | kernel/fs/fat/fat.c:551-657 | Table, chain and FSInfo become what the growth decided by the state before the call says, and the write succeeds if and only if that growth does. Success: contents become old[..loc] + buf + old[loc+count..], the size their length, the position advances. Failure: the buffer is written up to the end of the clusters, size and position are kept. Only the FAT and the file's clusters change on the disk |
| FatFile.FatFile.LoadBytes | kernel/fs/fat/fat.c:449-462 | One cluster's share of a read |
| FatFile.FatFile.Read | kernel/fs/fat/fat.c:400-484 | Returns exactly the bytes from the position, up to count or the end of the file; contents unchanged, rest of the buffer untouched |
| FatFile.Readable | kernel/fs/fat/fat.c:418-425 | How much is read: the whole request, or what there is up to the end of the file |
| FatFile.FatFile.Lseek | kernel/fs/fat/fat.c:660-668 | The position, cut at the size |
| FatFiles.WriteThenRead | kernel/fs/fat/fat.c:551-668 | Write, seek back, read: the same bytes come back, if and only if the growth decided by the state before the call succeeds |
| FatFiles.WriteBeside | kernel/fs/fat/fat.c:551-657 | A write, failed ones included, leaves another open file's chain, contents, size and position unchanged, unless the allocator's first choice is its cluster |
| FatFiles.OverlayHolds | kernel/fs/fat/fat.c:646-652 | What was written reads back and the rest is kept |
| FatFile.FatFile.Unharmed | kernel/fs/fat/fat.c:439-472 | A file is intact when its disk blocks, handle and cache are left alone |
| FatModel.ChoiceUnowned | kernel/fs/fat/fat.c:515-519 | With a hint that is distrusted or names no live file's cluster, the allocator never takes one |
| FatModel.GrowthKeepsSpare | kernel/fs/fat/fat.c:574-595 | Growing one file, a failed allocation included, keeps the chains valid and disjoint and the hint off them; unless an allocation failed, a good hint stays good |
| FatModel.ReleaseKeepsGood | kernel/fs/fat/usr.c:22-33 | Removing a file keeps a good hint good |
| FatModel.RemovalKeepsFamily | kernel/fs/fat/usr.c:22-33 | Removing a file keeps the other chains valid and disjoint and the hint off them |
| FatModel.FailsBehind | kernel/fs/fat/fat.c:571-657 | A write that fails has written everything inside the file, and not all of the buffer |
| FatModel.FailsAtEnd | kernel/fs/fat/fat.c:571-657 | It stops at the end of the clusters the file has then |
| FatModel.StepKeepsSound | kernel/fs/fat/fat.c:551-668 | Every write, failed ones included, read, seek, close and removal keeps all chains valid and pairwise disjoint, the hint off them and every open file covered; a good hint stays good unless an allocation fails |
| FatModel.GoodUntilFailure | kernel/fs/fat/fat.c:510-548 | Over every run a good hint stays good until an allocation fails |
| FatModel.RefusedOnlyIf | kernel/fs/fat/fat.c:510-523 | With a good hint exactly the operations on removed files and beyond 4 GB are refused |
| FatModel.SucceedsWithRoom | kernel/fs/fat/fat.c:551-657 | A write succeeds if as many clusters are free beyond the choice as its file lacks |
| FatRuns.WriteStep | kernel/fs/fat/fat.c:551-657 | A write to one of any number of open files: outcome and next state are those of the state machine, which the state before the call decides; no other file changes |
| FatRuns.ReadStep | kernel/fs/fat/fat.c:400-484 | A read of one of them returns its bytes at its position; no file's contents change |
| FatRuns.SeekStep | kernel/fs/fat/fat.c:660-668 | A seek moves one position |
| FatRuns.CloseStep | kernel/fs/fat/fat.c:372-397 | A close saves one file and changes none |
| FatRuns.RemoveStep | kernel/fs/fat/usr.c:10-41 | A close and fs_rm: one file's clusters are free again, the others' chains and contents stay |
| FatRuns.Run | kernel/fs/fat/fat.c:372-668 | Over every run of writes, failed ones included, reads, seeks, closes and removals on a family of files, the objects follow the state machine, whose chains stay valid and pairwise disjoint, and every call returns what it says |
| FatModel.OwnHistory | kernel/fs/fat/fat.c:372-668 | What a file shows after a run is decided by the operations that name it and their outcomes |
| FatClose.WriteInfo | kernel/fs/fat/fat.c:350-355 | FSInfo goes to sectors 1 and 7 of the partition and disturbs no cache |
| FatClose.Fflush | kernel/fs/fat/fat.c:346-369 | FSInfo on the disk, all FAT and directory slots clean, nothing reads differently, only system and directory sectors change |
| FatClose.FillEntry | kernel/fs/fat/fat.c:381-385 | The 32 bytes land at their place in the sector |
| FatClose.PutEntry | kernel/fs/fat/fat.c:377-385 | The directory sector shows the entry; the file is untouched |
| FatRemove.Remove | kernel/fs/fat/usr.c:10-41 | The clusters reachable from the entry's start are released, the entry keeps all bytes but the first, which marks it free, FSInfo, FAT and directory are saved, and only system and directory sectors change |
| FatFile.FatFile.FlushOwn | kernel/fs/fat/fat.c:389-392 | The file's own slots become clean, its contents and the FAT stay |
| FatClose.Close | kernel/fs/fat/fat.c:372-397 | Afterwards the entry is stored, every FAT, directory and data slot is clean, and the disk alone shows what the caches showed |
| FatRemount.CopiesEqual | kernel/fs/fat/fat.c:132-145 | In every valid state the two FAT copies on the disk are equal |
| FatRemount.Remount | kernel/fs/fat/fat.c:117-129 | A new mount of a saved volume sees the same FAT and directory |
| FatRemount.CloseAndReopen | kernel/fs/fat/fat.c:318-397 | Close, mount anew, open: same entry, same contents |
| FatDisk.ContentOnDisk | kernel/fs/fat/fat.c:439-472 | Byte i * n + j of a closed file is the disk byte 512 * (base + reserved + 2 * sectors per FAT) + (chain[i] - 2) * n + j, for clusters of n bytes |
| FatDisk.OpenedOnDisk | kernel/fs/fat/fat.c:318-343 | So is that of a file just opened |
| FatDisk.FatOnDisk | kernel/fs/fat/utils.c:70-120 | The entry of cluster c in a saved FAT is 28 bits of the little-endian word at byte 512 * (base + reserved) + 4 * c, and the second copy has the same word |
| FatDisk.EntryFields | kernel/fs/fat/utils.c:53-67 | The start cluster is bytes 26, 27, 20 and 21 of an entry, the size bytes 28 to 31, lowest first |
| FatDisk.HintFields | kernel/fs/fat/fat.c:514-517 | The hint is one more than the word at 492 of FSInfo, its limit one more than that at 488 |
| FatDisk.HintBytes | kernel/fs/fat/fat.c:537 | Storing a hint changes the four bytes at 492 alone |
| FatDisk.EntryOnDisk | kernel/fs/fat/fat.c:377-385 | The bytes of an entry in a saved directory lie at its place on the disk |
| FatDisk.CloseToDisk | kernel/fs/fat/fat.c:372-397 | After a close the entry, every byte of the file and every FAT entry, in both copies, lie at these addresses |
| FatDisk.RemoveOnDisk | kernel/fs/fat/usr.c:10-41 | After fs_rm the first byte of the entry on the disk is 0xE5 and the other 31 stay; every FAT entry lies at its place in both copies |
| FatNames.NextSlash | kernel/fs/fat/fat.c:176-209 | For every path: the length of the component and its 11-byte form |
| FatNames.GetFilename | kernel/fs/fat/fat.c:841-883 | For every entry: the NUL-terminated name; the in-place shift and copy never read an overwritten byte |
| FatNames.CopyExtension | kernel/fs/fat/fat.c:871-876 | The copy loop behind the dot |
| FatNames.NameRoundTrip | kernel/fs/fat/fat.c:176-209 | The component comes back upper-cased if and only if it has at most 8 bytes before its first dot, no space, and after a dot one to three bytes not ending in a dot |
| FatNames.UpperIs | kernel/fs/fat/fat.c:186-191 | Bytes 0x61 to 0x7A lose 0x20 and no other byte changes; two bytes become the same only if they are the same letter |
| FatNames.PackedExample | kernel/fs/fat/fat.c:176-209 | "readme.txt" becomes README, two spaces, TXT |
| FatNames.DotEntries | kernel/fs/fat/fat.c:849-853 | An entry that starts with a dot is "." or ".." |
| FatNames.TrailingDotLost | kernel/fs/fat/fat.c:880-881 | "A." comes back as "A" |
| FatNames.SameEntryIff | kernel/fs/fat/fat.c:176-221 | Two names that come back meet the same directory entry exactly when they agree up to case |
| FatNames.CmpFilename | kernel/fs/fat/fat.c:211-221 | 0 if and only if the eleven bytes agree |
| FatNames.SameFieldsIff | kernel/fs/fat/fat.c:176-221 | Any two components meet the same entry if and only if what reaches the base and what reaches the extension agree, spaces at the ends aside |
| FatNames.LongBaseCollides | kernel/fs/fat/fat.c:176-209 | A base of eleven bytes meets the entry of its first eight with its last three as extension |
| FatNames.EntryRoundTrip | kernel/fs/fat/fat.c:841-883 | A padded upper-case entry is found again under the name shown for it |
| Sched.TimeCmpIsOrder | kernel/pc/shed.c:169-194 | The two-word comparison is the order of 64-bit values |
| Sched.TimeAddExactIff | kernel/pc/shed.c:197-202 | The 64-bit sum is exact if and only if the addend is not 0 |
| Scheduler.ZeroAddend | kernel/pc/shed.c:197-202 | A zero addend moves the time by 2^32 |
| Scheduler.WakeTimeExactIff | kernel/pc/pc.c:513-516 | A wake time is the asked milliseconds ahead if and only if their cycles are positive and fit in 32 bits |
| Sched.LowestFree | kernel/pc/pc.c:209-230 | The lowest unused ASID |
| Asid.GetEmptyAsid | kernel/pc/pc.c:209-230 | The nested bit search returns and marks the lowest unused ASID, or -1 when all 256 are used |
| Asid.SetUsed | kernel/pc/pc.c:256-259 | Setting a bit marks that ASID alone |
| Asid.ClearUsed | kernel/pc/pc.c:251-254 | Clearing a bit frees that ASID alone |
| Asid.ClearAsid | kernel/pc/pc.c:251-254 | The word update in place |
| SchedInvariant.Move | kernel/pc/pc.c:121-146 | Moving one task between lists consistently keeps the partition |
| SchedInvariant.FlushKeeps | kernel/pc/shed.c:66-90 | Waking sleepers keeps the partition and no wait list changes |
| SchedInvariant.ReleaseKeeps | kernel/pc/pc.c:52-68 | Releasing the waiters keeps it |
| SchedInvariant.DispatchKeeps | kernel/pc/shed.c:116-143 | So does a dispatch |
| SchedInvariant.CreateKeeps | kernel/pc/pc.c:95-105 | ... a creation |
| SchedInvariant.KillKeeps | kernel/pc/pc.c:71-81 | ... and a kill, whatever list the victim is in, its own wait list included |
| SchedRuns.InitialSteady | kernel/pc/pc.c:271-307 | The state after start-up: the init task alone, running on level 0 with one tick left |
| SchedRuns.StepKeeps | kernel/pc/shed.c:93-143 | Every tick, create, sleep, wait and kill keeps the partition with a running task |
| SchedRuns.RunKeeps | kernel/pc/shed.c:93-143 | ... hence every run |
| SchedRuns.OnePlace | kernel/pc/pc.c:121-146 | Each live task is in exactly the place its state and level name: current, one ready list, the sleep list, or one live task's wait list |
| SchedRuns.RequeuedHasNext | kernel/pc/shed.c:100-112 | A tick always finds a ready task |
| SchedRuns.ChoiceIsHighest | kernel/pc/shed.c:47-57 | The task dispatched was at the head of its list, and no ready task has a higher level |
| SchedRuns.FlushExact | kernel/pc/shed.c:66-90 | A sleeper leaves the sleep list if and only if the clock reading it gets has reached its wake time |
| SchedRuns.NoEarlyWake | kernel/pc/shed.c:66-90 | Over every run without readings at or past its wake time, a task that is not killed stays asleep |
| SchedWaiting.TickProgress | kernel/pc/shed.c:93-114 | A tick with no sleeper due dispatches the waiting one or lowers its budget |
| SchedWaiting.BoundedWaiting | kernel/pc/shed.c:93-114 | A ready task runs within its budget of ticks |
| SchedQuiet.QuietProgress | kernel/pc/shed.c:93-143 | A tick, sleep, wait or kill that wakes nobody dispatches the waiting task or lowers its budget |
| SchedQuiet.BoundedWaitingAmidCalls | kernel/pc/shed.c:93-143 | Over every run of ticks, sleeps, waits and kills in which no task wakes up and none is created, a ready task that is not killed runs within its budget of turns |
| SchedWaiting.BudgetRange | kernel/pc/shed.c:153-157 | The budget is at most 8 * (sum of levels + tasks ahead + 1) |
| SchedRuns.CounterRange | kernel/pc/shed.c:153-157 | A quantum is 1 to 8 ticks |
| Scheduler.Scheduler.constructor | kernel/pc/pc.c:271-307 | Start-up on the lists and the bitmap |
| Scheduler.Scheduler.FlushSleepList | kernel/pc/shed.c:66-90 | The loop over the sleep list is the abstract flush |
| Scheduler.Scheduler.GetNextTask | kernel/pc/shed.c:47-64 | The head of the highest non-empty ready list |
| Scheduler.Scheduler.Schedule | kernel/pc/shed.c:116-143 | The dispatch step |
| Scheduler.Scheduler.PcSchedule | kernel/pc/shed.c:93-114 | The timer tick on the task structs and lists is the abstract tick (`QuantumEnds`, `QuantumLasts`) |
| Scheduler.Scheduler.PcFind | kernel/pc/pc.c:184-195 | Finds an ASID if and only if it belongs to a live one |
| Scheduler.Scheduler.SyscallSleep | kernel/pc/pc.c:509-523 | The sleep step, with the computed wake time, is the abstract one (`SleepEffect`) |
| Scheduler.Scheduler.SyscallWait | kernel/pc/pc.c:373-389 | The wait step is the abstract one (`WaitEffect`); an unknown task changes nothing |
| Scheduler.Scheduler.PcCreate | kernel/pc/pc.c:95-105 | The creation step, with the lowest free ASID, bitmap and lists in step |
| Scheduler.Scheduler.ReleaseWaiting | kernel/pc/pc.c:52-68 | The loop over the waiters is the abstract release |
| Scheduler.Scheduler.DeleteTask | kernel/pc/pc.c:121-161 | Out of all lists, ASID freed |
| Scheduler.Scheduler.PcKill | kernel/pc/pc.c:484-506 | The kill step, the current task included (`KillReleases`, `KillSpares`): the target is gone from all lists and its ASID is free |
| SchedEffects.FlushEffect | kernel/pc/shed.c:66-90 | Sleepers whose reading has reached their wake time go to the head of list 2, the last one first, on level 2 with their counters kept; all else stays |
| SchedEffects.DispatchEffect | kernel/pc/shed.c:116-143 | A dispatch does that and runs the head of the highest list; counters, wake times and wait lists stay |
| SchedEffects.QuantumEnds | kernel/pc/shed.c:100-112 | A task that used up its quantum on level l is on level max(l - 1, 0) with 8 ticks on level 0 and 4 on level 1, at the tail of that list, or runs on if it was alone there and nothing is above |
| SchedEffects.QuantumLasts | kernel/pc/shed.c:93-99 | Before that, ticks change its counter alone, so it stays current |
| SchedEffects.WholeQuantum | kernel/pc/shed.c:93-114 | A task with k ticks left is current for k ticks, and the k-th ends its quantum as above |
| SchedEffects.CreateEffect | kernel/pc/pc.c:95-105 | A created task has the lowest free ASID, level 1 and one tick, and is at the tail of list 1 |
| SchedEffects.SleepEffect | kernel/pc/pc.c:509-523 | The caller of a sleep is asleep until the wake time, exactly when its own reading is before it; otherwise it is ready on level 2 or runs; counter and wait list stay |
| SchedEffects.SleepsUntilWoken | kernel/pc/pc.c:509-523 | From the sleep call itself, over every run without readings at or past the wake time and without its kill, the caller stays asleep |
| SchedEffects.WaitEffect | kernel/pc/pc.c:373-389 | The caller of a wait is at the tail of the wait list of the task it named, itself included; it waits, and no other wait list changes |
| SchedEffects.RunWaits | kernel/pc/pc.c:373-389 | It stays on that list over every run that kills neither of the two |
| SchedEffects.WaitsUntilKilled | kernel/pc/pc.c:52-81 | The kill of that task after any such run makes it ready on level 2 or runs it |
| SchedEffects.KillEffect | kernel/pc/pc.c:484-506 | Exactly the target is gone, from all lists, and no wait list loses another task |
| SchedEffects.KillReleases | kernel/pc/pc.c:52-68 | Each former waiter is ready on level 2 with its counter kept, or is the one that runs now because the target was running |
| SchedEffects.KillSpares | kernel/pc/pc.c:484-506 | If the target was not running, the current task stays, and every task that did not wait for it keeps its level, state, counter and wake time; the waiters are at the head of list 2, the last one first |
| SchedEffects.KillDispatches | kernel/pc/pc.c:484-506 | If the target was running, a task that did not wait for it keeps its level and counter, and its state unless it is the ready one that runs now |
| SchedEffects.StepSpares | kernel/pc/shed.c:93-143 | Ticks, creations, sleeps and waits leave every task alone that is neither the current one nor asleep, except that a ready one may run now |
| SchedEffects.RemoveAt | include/xsu/list.h:44-61 | Taking a task off a list leaves the others in their order |
| BootMem.LowestRun | kernel/mm/bootmm.c:251-296 | The lowest run of free frames in a window, or none |
| BootMem.Blocked | kernel/mm/bootmm.c:290-293 | No run starts between the scan's start and the frame that blocks it: the jump skips nothing |
| BootMem.BootMm.SetMaps | kernel/mm/bootmm.c:226-239 | Exactly the frames of the run are set |
| BootMem.BootMm.Scan | kernel/mm/bootmm.c:266-280 | The inner loop |
| BootMem.BootMm.FindPages | kernel/mm/bootmm.c:251-296 | The lowest run is marked and its address returned, or nothing changes |
| BootMem.FindZeroIff | kernel/mm/bootmm.c:251-296 | 0 is returned if and only if there is no run or the lowest one is at frame 0, which is marked |
| BootMem.FrameZeroLost | kernel/mm/bootmm.c:251-296 | A one-frame map where that happens |
| BootMem.AllocIs | kernel/mm/bootmm.c:305-343 | With frame 0 in use: the lowest run of the first window that has one is taken, and nothing else changes |
| BootMem.AllocFailsIff | kernel/mm/bootmm.c:305-343 | 0 if and only if neither window holds a run |
| BootMem.PageCountIs | kernel/mm/bootmm.c:311-315 | The pages asked for are the least number that hold the size; above 4 GB - 4096 the sum wraps and none is asked for |
| BootMem.AllocKeepsSettled | kernel/mm/bootmm.c:305-343 | The frame allocated last is in use, after start-up and after every allocation |
| BootMem.AllocFailsOnlyWhenFull | kernel/mm/bootmm.c:305-343 | With that, 0 if and only if memory holds no run of that many free frames at all |
| BootMem.BootMm.AllocPages | kernel/mm/bootmm.c:305-343 | Rounding and the two searches on the map |
| BootMem.BootMm.constructor | kernel/mm/bootmm.c:192-215 | The map after start-up |
| BootMem.BlocksDisjoint | kernel/mm/bootmm.c:305-343 | Blocks handed out over any run of calls were free at the start and are pairwise disjoint |

## Left out

- The SD, VGA and PS/2 drivers, assembly, CP0 and TLB instructions, printing, locks and interrupt masking.
- The slab allocator and pages flagged for it: the free-list cell of a slab lies inside the last object.
- Buddy.BuddySystem.FreePageBlock: requires the order the block was allocated with; releasing with another order is
  not modelled.
- Buddy.BuddySystem.InitBuddy: the regions are given by their end addresses; their starts do not matter to the
  source.
- `insert_mminfo`, `split_mminfo`, `bootmm_free_pages`: the list of boot regions.
- BootMem.BootMm.AllocPages: does not model recording the block in `info`, whose outcome the source ignores.
- BootMem.BootMm.FindPages: requires an alignment of one page; above it stepping by one loses the alignment.
- FatVolume.Volume.constructor: does not model the boot-sector tests of `init_fat_info`, the geometry is given; and
  requires that the two copies of the FAT on the card agree, which the source does not check.
- FatVolume.Volume.Alloc: requires a choice that names a data cluster, and a partition at sector 0; outside, the
  source writes to sectors that are not those of the FAT or of the cluster.
- FatVolume.Volume.EraseCluster: says nothing of the FAT view for a partition at a non-zero sector, where the
  erased sectors may be the FAT's own.
- FatRemove.Remove: does not model the search of `fs_rm` for the entry; its place is given.
- FatRuns.RemoveStep: the file is closed before `fs_rm`, which reads its entry from the directory.
- FatRuns.WriteStep: requires room or a choice that names a data cluster; `FatRuns.Run` refuses the write
  otherwise.
- FatRuns.Run: the check before a write that may need a cluster (`FindChoice`) is the model's, not the source's; it
  starts at a partition at sector 0, with handles that were opened before, whose entries lie in sectors of other
  chains; opening and creating files are not among the operations.
- FatFile.FatFile.constructor: does not model `fs_find`; the directory entry and its place are given.
- FatFile.FatFile.Grab: requires that the allocator's choice names a data cluster other than the file's own, and a
  partition at sector 0. What taking a cluster in use does to its chain is in `TakenClusterCutsChain`.
- FatFile.FatFile.Extend: requires the same.
- FatFile.FatFile.Advance: requires the same where the file must grow.
- FatFile.FatFile.OpenCluster: requires the same where the file must grow.
- FatFile.FatFile.WriteClusters: requires the same where the file must grow.
- FatFile.FatFile.Write: requires the same where the file must grow.
- FatFiles.WriteThenRead: requires the same where the file must grow.
- FatFiles.WriteBeside: requires the same, and that the choice is not the other file's cluster either.
- FatClose.Close: requires the directory cache to hold directory sectors only, none of them the file's.
- `fs_find`, `fs_find_empty_entry`, `fs_read_dir`, `fs_create`, `fs_mkdir`, `fs_mv`, `fs_cp`: directory scanning
  beyond the first sector re-adds bases and passes sectors where clusters are expected.
- Failing disk reads and writes, and partitions at a non-zero sector for anything that allocates clusters.
- SchedInvariant.KillKeeps: does not model `pc_killallchildren`.
- Scheduler.Scheduler.PcKill: does not model the killing of children; children lists, fork, semaphores and the bare
  yield (which never requeues its caller) are not part of this model.
- Scheduler.Scheduler.PcCreate: requires a free ASID, because the source stores through a null pointer otherwise.
- Scheduler.Scheduler.GetNextTask: does not model the thread the source creates when no task is ready; it returns
  none then.
- Scheduler.Scheduler.Schedule: requires a ready task; the thread created otherwise would be dispatched without
  being on any list.
- Scheduler.Scheduler.SyscallSleep: requires that the caller leaves a ready task behind, for the same reason.
- Scheduler.Scheduler.SyscallWait: requires that the caller leaves a ready task behind, for the same reason.
- Intrusive links of the scheduler's lists: they are sequences here; the links themselves are modelled for the
  allocator.
- SchedWaiting.BoundedWaiting: speaks of timer ticks alone; `BoundedWaitingAmidCalls` has the other calls.
- SchedQuiet.BoundedWaitingAmidCalls: says nothing of runs in which a task wakes up or is created: those go ahead
  of a waiting task, any number of times.
- The VFS layer, vnode reference counts, the editor, menu, string helpers and page tables.
