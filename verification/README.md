# Storage and allocation core of the ZJUNIX kernel, modelled in Dafny

The kernel keeps several structures that must agree with something much simpler: page lists with a
partition of memory, a two-slot write-back cache with a flat FAT, a cluster chain with one byte
sequence, a page bitmap with a table of segments, a chained hash table with a map, three recovery
passes with one walk. This project states those agreements and proves them over every run.

Each component comes in two layers. A value layer (`BuddySpec`, `SectorCache`, `FatEntries`,
`Clusters`, `Volumes`, `FileSpec`, `SharedCard`, `BootSpec`, `RevokeSpec`, `RecoverySpec`, `SchedulerSpec`,
`ShortNameSpec`, `SlabSpec`) gives each operation as a function on values and proves what the operation means: the
invariants it keeps, what it undoes, when it fails. A code layer (`BuddySystem`, `BlockCaches`,
`FatBuffers`, `OpenFiles`, `Removal`, `Bootmm`, `Revoke`, `Recovery`, `Scheduler`, `ShortNames`,
`Slab`, and the first half of `init_buddy` in `BuddyBoot`) writes the operation the way the C code does - intrusive rings of list nodes, arrays of
buffers, loops, in-place moves - and proves that it computes the function of the value layer.
`Bits` gives C's `&`, `|`, `^` on words bit by bit, with the arithmetic meaning of the masks used;
`IntrusiveList` is `include/zjunix/list.h`.

To check the whole project: `dafny verify dfyconfig.toml`.

## Components

**Buddy allocator.** Over every run of requests and frees after `init_buddy`, free and handed-out
blocks partition the managed pages. The merge test looks only at a page's recorded order, and
`__alloc_pages` records the order in handed-out heads too, so freeing is safe exactly when no
accepted sibling is itself handed out (`FreeKeepsPartitionIff`). Initialisation needs no such
hypothesis: it counts in binary.

**FAT32 table and files.** The FAT buffer, with two slots and two copies on the card, answers like a
flat table of 28-bit values over every run. Removal, allocation, reading and writing are proved on
that flat table and on the file as one byte sequence, down to `fs_read` and `fs_write` on cache
buffers. Over every run of creating, extending and removing files the chains stay whole and disjoint,
and a write leaves every other file's chain and bytes alone. Over every run of several open files on
one card, each with buffers of its own, every file reads what was last written to it. The entry format
is that of the Microsoft FAT32 File System Specification 1.03, section "FAT Data Structure"; the
allocation hint is in its section "FAT32 FSInfo Sector Structure".

**Boot memory.** The two-phase search is complete, and bitmap and segment table describe the same
memory exactly as long as the table has room for what the search finds. `init_buddy` takes over from
there: what it manages, and what its clients are ever handed, is free for the boot allocator exactly
when the last boot page's number is not a multiple of 16 or the managed range ends at or before it
(`ManagedFreeIff`, `BootPagesKept`).

**Journal.** The revoke table means "the largest sequence set so far" for every block; the three
recovery passes visit the same places exactly when every descriptor block on the way has its tags
counted alike by scan and replay, and the revoke pass fills the table with exactly what the log says.

**Scheduler, short names, slab pages.** Bounded waiting and preserved contexts over every run; exact
conditions for both round trips of 8.3 names; conservation of slab objects over every run, with
client writes in between.

## Where the code does not do what it is for

Each of these is kept as the code has it, with a lemma for the failing case and the exact condition
under which the promise holds.

- Freeing one of two handed-out sibling blocks merges it with the other, still in use
  (kernel/mm/buddy.c:105; `HeldSiblingsBreak`, `TwoSinglePagesBreak`, `FreeKeepsPartitionIff`).
- `init_buddy` shifts the last byte of a boot segment, not the byte after it, so the last boot page
  is managed although it is USED if its number is a multiple of 16 and below the end of the managed
  range, against the comment (kernel/mm/buddy.c:59-68; `ManagedFreeIff`). The kernel's own boot path
  makes no request before that of `init_buddy`, and its last boot page is 4319, so it does not get
  there; with one page requested before, the last one is 4320 (`KernelHandover`). With a full segment
  table the array of page structures itself is managed (`PageArrayManaged`).
- `bootmm_alloc_pages` answers a request of size 0, or of a size whose rounding wraps, with a free page
  that it does not mark, and gives the same page to the next one-page request
  (kernel/mm/bootmm.c:155-206; `ReservedIff`).
- `fs_alloc` takes FSInfo's "unknown" hint 0xFFFFFFFF for a legal one and hands out the reserved
  entry of cluster 0 (kernel/fs/fat/fat.c:677-683; `UnknownHintTakesClusterZero`, `AllocFreshIff`).
  When no second free cluster exists it fails after marking the first one (`AllocEffect`).
- `fs_rm` releases a file's clusters while another FILE of it may be open: closing that one later writes
  its dirty buffers over whatever the clusters hold by then (kernel/fs/fat/usr.c:11-38,
  kernel/fs/fat/fat.c:536-556; `StaleCloseIff` says exactly when this harms the next owner,
  `RemovedWhileOpen` is such a run).
- `pc_create` into the slot of the current process is lost: the next scheduling saves the running
  registers over it (kernel/pc/pc.c:63-98; `CreatedOverCurrent`, `CreatedStarts`).
- `fs_dataclus2sec` shifts by the position of the highest bit of `sectors_per_cluster`, so clusters
  overlap on the card unless that is a power of two (kernel/fs/fat/utils.c:123-125; `RangesDisjoint`).
- `fs_read` and `fs_write` add `loc + count` on 32 bits. Once that wraps, they move no byte (or, at a
  sum of exactly 2^32, run on past the end of the file) and the file pointer goes backwards
  (kernel/fs/fat/fat.c:585-595, 643, 737-740, 1324-1330; `ReadPromiseIff`, `WritePromiseIff`,
  `WrappedRead`).
- The bitmap and the segment table part ways when the table is full and no segment can take the new
  pages in: `insert_mminfo` then returns 0, and `bootmm_alloc_pages` ignores it. Ten one-page requests
  of alternating kinds after `init_bootmm` get there (kernel/mm/bootmm.c:65, 195-218; `AllocKeeps`,
  `InsertFailsIff`, `TenthRequestLost`).
- Replay expects a 16-byte UUID after a tag without SAME_UUID and `count_tags` does not. They may still
  count the same number of tags; where they do not, scan and replay part. The descriptor blocks that the
  commit code lays out for an 8-sector buffer are of that kind, because their first tag carries
  FIRST_TAG alone: scan counts eight tags, replay six (kernel/fs/fat/recovery.c:66, 307,
  kernel/fs/fat/commit.c:168-190; `SameWalkIff`, `CommittedBlockParts`).
- `end_transaction` has 16 bits: a log whose first sequence plus its commit blocks reaches 65536 runs
  into the endless mismatch loop (kernel/fs/fat/recovery.c:14, 363-367; `MismatchIff`,
  `OutcomeIs`, `LastTransactionHangs`).
- `journal_pointer_move` backwards, which its comment promises, is wrong whenever it has to wrap
  beyond block 0, and forwards it leaves the ring when it stays on block 0 (kernel/fs/fat/journal.c:292-306;
  `MoveBackIff`, `MoveForwardIff`, `MoveFails`).
- A cache of objects of 2048 bytes has one slot per page and no object: `slab_alloc` takes page after
  page and never returns (kernel/mm/slab.c:15; `SingleSlotStarves`, `ServedIff`). `kmalloc` never gets that
  far: `get_slab` takes only sizes below 2048, so a request of 1537 to 2048 bytes ends in the "No
  available slab" loop instead (kernel/mm/slab.c:169-182, 199-204; `GetSlab`).

## Model

| member | source | states |
|---|---|---|
| Bits.FlipBit | kernel/mm/buddy.c:103 | XOR with one bit adds or subtracts that power of two, depending on the bit |
| Bits.ClearBit | kernel/mm/buddy.c:114 | AND with the copy whose bit is flipped clears the bit |
| Bits.AndHighMask | kernel/mm/slab.c:73 | masking the low bits away rounds down to a multiple of the power of two |
| BuddySpec.BitwiseSibling | kernel/mm/buddy.c:103-115 | the XOR and AND of the merge loop are the neighbouring block of the same order and the head of the two together |
| BuddySpec.FreeKeeps | kernel/mm/buddy.c:84-124 | freeing a block in transit, when accepted siblings are free, gives back a partition with exact lists and counters |
| BuddySpec.FreeMergesAll | kernel/mm/buddy.c:101-118 | no two free siblings below the largest order stay unmerged |
| BuddySpec.MergedLevel | kernel/mm/buddy.c:111-113 | an absorbed upper sibling records no order any more |
| BuddySpec.MergedSiblingIsHeld | kernel/mm/buddy.c:105 | an accepted sibling on no free list is a handed-out block of the same order |
| BuddySpec.UnsafeFreeOverlaps | kernel/mm/buddy.c:101-121 | if a merge is with a sibling that is not free, the block put on a list contains a block still handed out |
| BuddySpec.FreeKeepsPartitionIff | kernel/mm/buddy.c:84-124 | freeing a handed-out block keeps the partition exactly when every accepted sibling is on its free list |
| BuddySpec.AllocKeeps | kernel/mm/buddy.c:126-163 | a block handed out is aligned and overlaps nothing handed out before; the partition, lists and counters stay exact; a failed request changes nothing |
| BuddySpec.AllocMergesNothing | kernel/mm/buddy.c:150-159 | splitting leaves no two free siblings unmerged |
| BuddySpec.AllocExact | kernel/mm/buddy.c:126-163 | a request takes the head of the first non-empty list from its order on, and gives page + 2^j to every list j below it; counters and recorded orders follow |
| BuddySpec.FreeRunInBlock | kernel/mm/buddy.c:101-118 | with everything merged, an aligned run of free pages lies inside a single free block |
| BuddySpec.AllocFailsIff | kernel/mm/buddy.c:133-140 | a request fails exactly when no aligned run of that size is free |
| BuddyRuns.InitCounter | kernel/mm/buddy.c:79-81 | after i frees the top order holds i / 16 blocks and order k below it holds bit k of i, at its place; the blocks partition the first i pages |
| BuddyRuns.InitMergesOnlyFree | kernel/mm/buddy.c:79-81 | every merge of initialisation is with a free block |
| BuddyRuns.InitDone | kernel/mm/buddy.c:79-81 | initialisation ends with all managed memory in blocks of the largest order |
| BuddyRuns.StepKeeps | kernel/mm/buddy.c:84-163 | every allowed request or free keeps the allocator and the blocks held consistent |
| BuddyRuns.EveryRun | kernel/mm/buddy.c:84-163 | over every run: aligned disjoint blocks cover the pages, counters count their lists, free siblings are merged, and requests fail only for want of a run |
| BuddyRuns.HeldSiblingsBreak | kernel/mm/buddy.c:105 | freeing one of two handed-out siblings always breaks the partition, below the largest order |
| BuddyRuns.TwoSinglePagesBreak | kernel/mm/buddy.c:105 | a concrete run: the first two single pages after initialisation are siblings, and freeing one frees both |
| BuddyBoot.LastPageIsUsed | kernel/mm/buddy.c:59-65 | kernel_end_pfn is the last page that the boot allocator holds USED |
| BuddyBoot.RangeAligned | kernel/mm/buddy.c:67-69 | both ends of the managed range are multiples of the largest block |
| BuddyBoot.ManagedFreeIff | kernel/mm/buddy.c:59-69 | for every state of the boot allocator: all managed pages are FREE exactly when the last boot page's number is not a multiple of 16 or the range ends at or before it; no other page can be both managed and USED |
| BuddyBoot.BootPagesKept | kernel/mm/buddy.c:59-163 | over every run of requests and frees, every managed page is in a listed or handed-out block, and clients hold only pages the boot allocator left FREE, but for the failing case, in which the last boot page is among the managed ones |
| BuddyBoot.KernelHandover | kernel/mm/buddy.c:42-69 | after any requests for kernel pages and then the one of init_buddy for the page structures: the managed pages are FREE exactly when the number of pages requested before is not 1 modulo 16 |
| BuddyBoot.PageArrayManaged | kernel/mm/buddy.c:42-69 | a concrete run that fills the segment table, after which the pages of the page structures are managed |
| BuddyBoot.KernelEndPfn | kernel/mm/buddy.c:59-65 | the loop computes the last boot page |
| BuddyBoot.TakeOver | kernel/mm/buddy.c:42-69 | the request for the page structures, and the bounds of the managed range in the state after it |
| IntrusiveList.ListAdd | include/zjunix/list.h:23-30 | a node alone joins a ring in front |
| IntrusiveList.ListDelInit | include/zjunix/list.h:34-48 | a node leaves its ring, which stays a ring, and is alone afterwards |
| IntrusiveList.ListEmpty | include/zjunix/list.h:60 | true exactly for a ring without other nodes |
| BuddySystem.Allocator.constructor | kernel/mm/buddy.c:29-40 | pages on no list, empty rings |
| BuddySystem.Allocator.FreePages | kernel/mm/buddy.c:84-124 | the rings, orders and counters become those of the value-level free, whatever the siblings are |
| BuddySystem.Allocator.AllocPages | kernel/mm/buddy.c:126-163 | the same for a request, with the block returned |
| BuddySystem.Allocator.InitBuddy | kernel/mm/buddy.c:79-81 | the freeing loop reaches the state of the binary counter |
| SectorCache.VictimChoice | kernel/fs/fscache/fscache.c:313-357 | the victim is the first clean unreferenced slot in clock order, else the first clean one, else the one under the hand; which slots lose their reference bit |
| SectorCache.VictimIsBest | kernel/fs/fscache/fscache.c:313-357 | a dirty victim means all slots are dirty; a referenced one means no slot was clean and unreferenced |
| SectorCache.ReadKeeps | kernel/fs/fscache/fscache.c:376-401 | reading returns the logical content of the block and keeps the logical device, both copies equal and no block cached twice, whatever is evicted |
| SectorCache.AccessBits | kernel/fs/fscache/fscache.c:263-310 | a hit sets the reference bit and nothing else; a miss leaves the block referenced and clean in the victim's place, clearing leaves zeros with neither bit; other slots lose at most their reference bit |
| SectorCache.ClearKeeps | kernel/fs/fscache/fscache.c:291-310 | clearing the buffer of a block that is zero on the device changes nothing a reader sees |
| SectorCache.PutKeeps | kernel/fs/fat/utils.c:100-107 | changing a cached block changes that block alone, and leaves it referenced and dirty |
| SectorCache.FlushWritesAll | kernel/fs/fat/fat.c:490-508 | after writing back all slots the device and its mirror hold what readers saw |
| SectorCache.FlushBits | kernel/fs/fscache/fscache.c:247-260 | writing back clears the dirty bits of used slots and nothing else in them |
| BlockCaches.BlockCache.PickVictim | kernel/fs/fscache/fscache.c:313-358 | the two sweeps over the buffers make the CLOCK choice; the hand stays in range |
| BlockCaches.BlockCache.WriteSlot | kernel/fs/fat/fat.c:131-143 | a dirty buffer goes to the device and its mirror, and becomes clean |
| BlockCaches.BlockCache.ReadBlock | kernel/fs/fscache/fscache.c:376-401 | finds or loads the block, evicting and writing back as the value layer says |
| BlockCaches.BlockCache.ClearBlock | kernel/fs/fscache/fscache.c:291-310 | a zeroed dirty buffer for the block |
| BlockCaches.BlockCache.Flush | kernel/fs/fat/fat.c:501-507 | writes all slots back in turn |
| FatEntries.GetSetU32 | kernel/fs/fat/utils.c:20-35 | a word reads back as written, and other aligned words are untouched |
| FatEntries.EntryLocations | kernel/fs/fat/utils.c:116-120 | the entry of a cluster starts 4 bytes times its number behind the start of the first FAT copy, inside that copy; different clusters have different places |
| FatEntries.MaskedEntry | kernel/fs/fat/utils.c:97-102 | the masks replace the low 28 bits and keep the top four |
| FatEntries.GetEntryFacts | kernel/fs/fat/utils.c:60-76 | reading returns the low 28 bits of the table and changes no entry |
| FatEntries.SetEntryFacts | kernel/fs/fat/utils.c:79-113 | modifying replaces one entry's low 28 bits in the table and nothing else |
| FatEntries.RunRefines | kernel/fs/fat/utils.c:60-113 | over every run of reads, modifications and flushes the buffer answers like a flat table, and the two copies on the device stay equal |
| FatEntries.EmptyShows | kernel/fs/fat/fat.c:114-143 | with empty buffers, the table is what the bytes of the card spell, least significant first, four to an entry |
| FatEntries.FlushedHolds | kernel/fs/fat/fat.c:490-508 | after a flush bytes 4 c to 4 c + 3 of each copy on the card spell entry c |
| FatEntries.CardRun | kernel/fs/fat/utils.c:60-120 | over every run from a card whose copies hold a table, byte by byte, the values read are those of the flat table, and after a flush both copies hold it, byte by byte |
| FatBuffers.LoadU32 | kernel/fs/fat/utils.c:20-22 | the little-endian word |
| FatBuffers.StoreU32 | kernel/fs/fat/utils.c:30-35 | the little-endian word stored, other bytes kept |
| FatBuffers.FatBuffer.ClusterToFatEntry | kernel/fs/fat/utils.c:116-120 | sector and offset of an entry, from shifts and masks: byte 4 clus behind the start of the FAT |
| FatBuffers.FatBuffer.GetFatEntryValue | kernel/fs/fat/utils.c:60-76 | the entry of the logical FAT, which stays as it is |
| FatBuffers.FatBuffer.FsModifyFat | kernel/fs/fat/utils.c:79-113 | the logical FAT with one entry changed |
| FatBuffers.FatBuffer.Flush | kernel/fs/fat/fat.c:501-503 | the logical FAT stays, and both copies on the card hold it, byte by byte |
| Clusters.ReleaseZeroesReachable | kernel/fs/fat/usr.c:22-33 | release zeroes exactly the entries reachable from the start, on cyclic FATs too, and leaves the others |
| Clusters.ReleaseStart | kernel/fs/fat/usr.c:25-33 | a release from cluster 0 or from beyond the volume changes nothing, any other cluster is freed |
| Clusters.ReleaseFrees | kernel/fs/fat/usr.c:22-33 | the number of free entries rises by the number of used clusters released |
| Clusters.ReleaseLeavesDisjoint | kernel/fs/fat/usr.c:22-33 | a chain without a released cluster keeps its links |
| Removal.ReleaseChain | kernel/fs/fat/usr.c:22-33 | the loop ends on every FAT and releases through the FAT buffer |
| Clusters.NextFree | kernel/fs/fat/fat.c:651-670 | the first free cluster from the start on, or 0xFFFFFFFF when none is left |
| Clusters.AllocEffect | kernel/fs/fat/fat.c:673-724 | allocation marks one entry end-of-chain and touches no other; success exactly when a later free cluster exists, and the hint then points before the lowest of those |
| Clusters.AllocReturns | kernel/fs/fat/fat.c:677-714 | on the FSInfo words: a hint beyond the free count leads to the lowest free cluster from 2 on, one up to it to the cluster behind it, 0xFFFFFFFF to cluster 0 |
| Clusters.AllocFreshIff | kernel/fs/fat/fat.c:677-694 | a successful allocation returns a free data cluster exactly when the hint is beyond the free count (or that is unknown) or the cluster behind it is free |
| Clusters.HintReadyIff | kernel/fs/fat/fat.c:677-694 | the cluster taken next is a free data cluster exactly when the one behind the hint is, or the hint is not followed and some cluster is free |
| Clusters.HalfFull | kernel/fs/fat/fat.c:677-714 | with the hint beyond the free count and two clusters free, allocation succeeds and takes the lowest |
| Clusters.UnknownHintTakesClusterZero | kernel/fs/fat/fat.c:677-683 | the hint 0xFFFFFFFF leads to cluster 0 |
| Volumes.VolumeStepExact | kernel/fs/fat/fat.c:853-929 | what creating, extending and removing do to the list of files, to the entry linked and to the entries released |
| Volumes.VolumeStepKeeps | kernel/fs/fat/fat.c:853-929 | creating, extending and removing files keep every chain whole and all chains disjoint, with a hint that is not followed or points before a cluster of no file; a cluster appended was in no file |
| Volumes.VolumeRun | kernel/fs/fat/fat.c:673-724 | over every such run each file is a chain, no two files share a cluster, and the next cluster handed out is a data cluster of no file |
| Volumes.HintStaysFree | kernel/fs/fat/fat.c:673-724 | over every run in which no allocation fails, if the next cluster to be taken is free at the start, the entry of each cluster allocated was 0, and the next one to be taken is free again |
| Volumes.ChainReaches | kernel/fs/fat/usr.c:25-33 | what the release loop reaches from a file's first cluster is exactly the file's chain |
| Volumes.RemoveKeeps | kernel/fs/fat/usr.c:22-33 | removing one file frees exactly its clusters and leaves every other chain whole |
| FileSpec.ConversionsInverse | kernel/fs/fat/utils.c:123-129 | the conversions between clusters and sectors are inverse to each other, for every cluster size |
| FileSpec.RangesDisjoint | kernel/fs/fat/utils.c:123-125 | data clusters lie behind both FAT copies for every base address; distinct ones are disjoint if the cluster size is a power of two, and adjacent ones overlap otherwise |
| FileSpec.LoadFacts | kernel/fs/fscache/fscache.c:263-288 | reading a cluster delivers its bytes and changes none |
| FileSpec.StoreFacts | kernel/fs/fat/fat.c:1098-1103 | changing a cluster's buffer changes that cluster alone |
| FileSpec.FlushedArea | kernel/fs/fat/fat.c:536-556 | after the buffers are written back, data cluster c is on the card 8 (c - 2) sectors behind the first data sector |
| FileSpec.ClearFacts | kernel/fs/fscache/fscache.c:291-310 | clearing a buffer is right for a cluster erased on the card |
| FileSpec.ChainInUse | kernel/fs/fat/fat.c:673-724 | every cluster of a file is in use, so a free one belongs to no file |
| FileSpec.ChainAppended | kernel/fs/fat/fat.c:922-929 | linking a fresh end-of-chain cluster extends the chain by it |
| FileSpec.ReadsCompose | kernel/fs/fat/fat.c:566-648 | reading m and then n bytes is reading m + n bytes |
| FileSpec.ReadPromiseIff | kernel/fs/fat/fat.c:584-643 | the number returned and the new position are as promised exactly when loc + count does not wrap; the number alone also at the end of the file |
| FileSpec.WrappedRead | kernel/fs/fat/fat.c:584-643 | a concrete read that delivers nothing and moves backwards |
| FileSpec.WritePromiseIff | kernel/fs/fat/fat.c:737-740 | all bytes moved, position and size as promised exactly when loc + count does not wrap |
| FileSpec.ChainLengthIs | kernel/fs/fat/fat.c:853-929 | a write takes as many clusters as hold its end and no more; a wrapped one takes one more exactly from the end of a full file |
| FileSpec.OthersUntouched | kernel/fs/fat/fat.c:728-1334 | if only free clusters join a file and nothing in use outside it changes, another file keeps chain, entries and bytes and stays apart |
| FileSpec.FlatStore | kernel/fs/fat/fat.c:1098-1103 | storing the next bytes into their cluster advances the write of the byte sequence |
| FileSpec.WriteReadsBack | kernel/fs/fat/fat.c:566-648 | reading back a finished write delivers its bytes; reading elsewhere what was there, or zeros in new clusters |
| OpenFiles.FsWa | kernel/fs/fat/utils.c:38-44 | the loop finds the position of the highest bit set |
| OpenFiles.SplitPosition | kernel/fs/fat/fat.c:592-595 | shift and mask split a position into cluster and offset |
| OpenFiles.OpenFile.constructor | kernel/fs/fat/fat.c:456-469 | a file just opened: byte 4096 k + i is byte i of its cluster k, 8 sectors times the cluster's number less 2 behind the first data sector of the card |
| OpenFiles.OpenFile.WriteBackAll | kernel/fs/fat/fat.c:536-556 | after the buffers are written back the card holds every byte of the file at that place |
| OpenFiles.OpenFile.FsRead | kernel/fs/fat/fat.c:566-648 | delivers exactly the bytes of the file from loc, cut at its size, and advances loc by as many, when loc + count does not wrap; what it does when it wraps; no file content and no FAT entry changes |
| OpenFiles.OpenFile.FsLseek | kernel/fs/fat/fat.c:1337-1344 | the position cut at the file size |
| OpenFiles.OpenFile.FsNextFree | kernel/fs/fat/fat.c:651-670 | the search through the FAT buffer finds the first free cluster |
| OpenFiles.OpenFile.FsAlloc | kernel/fs/fat/fat.c:673-724 | allocation through FAT buffer and FSInfo words: which cluster for which words; it was free, is zeroed on the card, and the next one to be taken is free again |
| OpenFiles.OpenFile.Extend | kernel/fs/fat/fat.c:922-929 | the file grows by one zeroed cluster, which was free; no other entry in use changes |
| OpenFiles.OpenFile.WalkGrowing | kernel/fs/fat/fat.c:853-929 | reaching the cluster of the file position, extending the chain by free clusters where it ends |
| OpenFiles.OpenFile.WriteLoop | kernel/fs/fat/fat.c:1006-1318 | the cluster loop puts the bytes in place in order, extending the chain by free clusters |
| OpenFiles.OpenFile.FsWrite | kernel/fs/fat/fat.c:728-1334 | success replaces exactly the bytes moved from loc on, extends the chain no further than needed and sets size and loc; failure keeps size and loc with a prefix written; every cluster that joins was free, and nothing in use outside the file changes |
| OpenFiles.OpenFile.WriteBeside | kernel/fs/fat/fat.c:728-1334 | a write leaves any other file's chain, entries and bytes, and the two files share no cluster afterwards |
| OpenFiles.OpenFile.WriteSeekRead | kernel/fs/fat/fat.c:566-1344 | fs_write, then fs_lseek back, then fs_read: the bytes written are delivered, whatever the cache evicted meanwhile |
| SharedCard.ChainsOwnApart | kernel/fs/fat/utils.c:123-125 | files with disjoint chains own disjoint blocks of the card |
| SharedCard.FreshCard | kernel/fs/fat/fat.c:456-469 | files just opened show what is on the card |
| SharedCard.AccessKeeps | kernel/fs/fscache/fscache.c:247-310 | every access through a file's buffers does to its blocks what it says, keeps the buffers consistent and changes the card only at the file's own blocks |
| SharedCard.StepShows | kernel/fs/fscache/fscache.c:247-310 | an operation on one open file leaves what all the others show and the consistency of their buffers |
| SharedCard.CardRun | kernel/fs/fat/fat.c:456-648 | over every run of reads, writes, growths, closings and removals on any number of files sharing the card, each file reads what the last operation put there, and closing leaves just that on the card |
| SharedCard.FlushDevice | kernel/fs/fat/fat.c:536-556 | closing writes every dirty buffer to its block, whoever owns it |
| SharedCard.StaleCloseIff | kernel/fs/fat/fat.c:536-556 | closing a file after its removal leaves the next owner's contents and buffers right exactly when each of that owner's blocks that is dirty in the closed file is dirty with the owner, too, or equal on the card |
| SharedCard.RemovedWhileOpen | kernel/fs/fat/usr.c:11-38 | a concrete run in which a removed file's buffer overwrites the next owner's block |
| BootSpec.InsertCovers | kernel/mm/bootmm.c:31-70 | each merge case and the plain insertion add exactly the new interval to what is covered for its kind; code 0 changes nothing |
| BootSpec.MergeThree | kernel/mm/bootmm.c:44-48 | an interval closing the gap between two segments leaves one segment covering all three |
| BootSpec.InsertKeepsSegments | kernel/mm/bootmm.c:31-112 | segments stay disjoint, whichever case applies |
| BootSpec.SearchFailsIff | kernel/mm/bootmm.c:195-211 | the two phases fail exactly when no free run of that length exists anywhere |
| BootSpec.SearchIsLowest | kernel/mm/bootmm.c:155-193 | what is found is the lowest run of the phase that succeeds |
| BootSpec.InsertFailsIff | kernel/mm/bootmm.c:31-70 | insertion returns 0 exactly when the table is full and no segment can take the interval in, on one side or across a gap |
| BootSpec.InsertMerges | kernel/mm/bootmm.c:31-60 | what codes 2, 4, 6 and 7 say about the segment that changed |
| BootSpec.AllocReserves | kernel/mm/bootmm.c:195-218 | the pages answered were FREE and are USED, hold the bytes requested with less than a page to spare, and are the lowest such run of the phase; no other page changes; a request fails exactly when no run holds its bytes |
| BootSpec.AllocKeeps | kernel/mm/bootmm.c:195-218 | with that, bitmap and segments stay well formed and keep agreeing exactly when the table had room for what the search finds; a failed request changes nothing |
| BootSpec.AllocCovers | kernel/mm/bootmm.c:195-218 | with room, the table covers exactly the pages reserved in addition, for the kind requested |
| BootSpec.ReservedIff | kernel/mm/bootmm.c:195-218 | the page answered is USED afterwards exactly when the size is not 0 and its rounding does not wrap; otherwise bitmap and coverage stay and the next one-page request gets the same page |
| BootSpec.TenthRequestLost | kernel/mm/bootmm.c:114-218 | a concrete run from init_bootmm whose tenth one-page request leaves a USED page in no segment |
| BootSpec.EveryBootRun | kernel/mm/bootmm.c:114-218 | over every run of requests for which the table has room, a page is USED exactly when one segment covers it, and the search stays complete |
| Bootmm.BootMemory.constructor | kernel/mm/bootmm.c:114-132 | the state after init_bootmm |
| Bootmm.BootMemory.SetMaps | kernel/mm/bootmm.c:140-146 | a run of cells set |
| Bootmm.BootMemory.RemoveInfo | kernel/mm/bootmm.c:101-112 | one segment taken out, the later ones moved down |
| Bootmm.BootMemory.InsertInfo | kernel/mm/bootmm.c:31-70 | table and code of the value-level insertion |
| Bootmm.BootMemory.FindPages | kernel/mm/bootmm.c:155-193 | the lowest free run of the range, marked, with last_alloc_end at its end; for no pages, the first free one, unmarked |
| Bootmm.BootMemory.AllocPages | kernel/mm/bootmm.c:195-218 | the whole request for every 32-bit size: the pages reserved hold the bytes, or no run of FREE pages would |
| RevokeSpec.Hash | kernel/fs/fat/revoke.c:47-55 | stays inside the table for every block |
| RevokeSpec.HashBits | kernel/fs/fat/revoke.c:47-55 | in a table of 2^s chains bit i of a block's place is the XOR of three bits of its number |
| RevokeSpec.SetRecords | kernel/fs/fat/recovery.c:407-422 | raises the sequence recorded for the block to at least the new one and leaves every other block alone, hash collisions included |
| RevokeSpec.SetAllRecords | kernel/fs/fat/recovery.c:407-422 | after any calls the record reaches s exactly if it did before or a call did |
| RevokeSpec.TestMeansRevoked | kernel/fs/fat/recovery.c:431-443 | 1 exactly when some call named the block with at least that sequence, and 0 otherwise |
| RevokeSpec.ScanRevokes | kernel/fs/fat/recovery.c:381-405 | scanning a record revokes exactly the blocks whose numbers are its words from byte 16 on, up to its transaction |
| Revoke.RevokeTable.constructor | kernel/fs/fat/revoke.c:12-42 | an empty table of the given size, with its hash shift |
| Revoke.RevokeTable.FindRecord | kernel/fs/fat/revoke.c:76-92 | the record of the block on its chain, or null if there is none |
| Revoke.RevokeTable.InsertRevokeHash | kernel/fs/fat/revoke.c:57-72 | a new record in front of its chain |
| Revoke.RevokeTable.SetRevoke | kernel/fs/fat/recovery.c:407-422 | raises the record in place, or inserts one |
| Revoke.RevokeTable.TestRevoke | kernel/fs/fat/recovery.c:431-443 | answers from the block's record |
| Revoke.RevokeTable.ScanRevokeRecords | kernel/fs/fat/recovery.c:381-405 | sets every block listed, with the sequence cut to 16 bits, and counts them |
| RecoverySpec.WrapIff | kernel/fs/fat/recovery.c:121-125 | one bulk wrap equals n wrapping increments exactly when the ring's end is passed at most once |
| RecoverySpec.MoveForwardIff | kernel/fs/fat/journal.c:294-306 | forwards, n increments exactly when it wraps at most once and does not stay on block 0 |
| RecoverySpec.MoveForward | kernel/fs/fat/journal.c:294-306 | right for every step up to the length of a ring behind the superblock |
| RecoverySpec.MoveBackIff | kernel/fs/fat/journal.c:294-306 | the exact cases in which a step backwards is that many decrements |
| RecoverySpec.MoveFails | kernel/fs/fat/journal.c:294-306 | concrete steps, backwards and forwards, that leave the ring |
| RecoverySpec.TagsAgreeIff | kernel/fs/fat/recovery.c:50-74 | count_tags and replay look at the same tags exactly when every tag before the last carries SAME_UUID |
| RecoverySpec.CountTagsIs | kernel/fs/fat/recovery.c:50-74 | the tags counted are those from byte 12 on, up to the first with bit 3 of its flags set or as many as fit |
| RecoverySpec.ReplayTagsAre | kernel/fs/fat/recovery.c:223-312 | replay steps on by 8 bytes behind a tag with bit 1 of its flags set and by 24 behind others, up to the first with bit 3 set |
| RecoverySpec.HeaderDecides | kernel/fs/fat/recovery.c:175-346 | words 0, 4 and 8 of a block decide: without the magic number, or with another sequence than that expected, every pass ends there; what the three kinds of blocks do to place and sequence; other kinds end the pass |
| RecoverySpec.PassedBlocks | kernel/fs/fat/recovery.c:162-348 | over every walk each block passed carries the magic number, and as its sequence the superblock's plus the commit blocks before it |
| RecoverySpec.StepsAgreeIff | kernel/fs/fat/recovery.c:201-315 | on a ring longer than 62 blocks the passes leave a descriptor block for the same place exactly when they count alike |
| RecoverySpec.CommittedBlockParts | kernel/fs/fat/commit.c:168-190 | the descriptor block laid out for an 8-sector buffer leaves scan and replay at different places |
| RecoverySpec.SameWalkIff | kernel/fs/fat/recovery.c:129-348 | on a ring longer than 62 blocks, scan and replay stay together over n blocks exactly when the tags of every descriptor block on the way are counted alike |
| RecoverySpec.RevokeWalksAsScan | kernel/fs/fat/recovery.c:208-216 | the revoke pass always makes the walk of the scan |
| RecoverySpec.SameStep | kernel/fs/fat/recovery.c:162-348 | on a uniform block of no more tags than the ring holds, the three passes make the same step and stay in the ring |
| RecoverySpec.SameWalk | kernel/fs/fat/recovery.c:129-348 | on a ring of any length, such uniform blocks keep the three passes together |
| RecoverySpec.MismatchIff | kernel/fs/fat/recovery.c:358-371 | where scan and replay count alike, the mismatch branch is reached exactly when the superblock's sequence plus the commit blocks walked exceeds 16 bits; otherwise which transaction number recovery ends with |
| RecoverySpec.OutcomeIs | kernel/fs/fat/recovery.c:353-376 | once the passes have ended, the mismatch branch is reached exactly when the scan's transaction does not fit 16 bits or the replay ended at another one |
| RecoverySpec.StillRunning | kernel/fs/fat/recovery.c:77-116 | recovery has an outcome only once all passes have ended |
| RecoverySpec.CleanMount | kernel/fs/fat/recovery.c:98-106 | with s_start 0 the log is skipped whatever it holds |
| RecoverySpec.StaleBlockEnds | kernel/fs/fat/recovery.c:186-197 | a concrete ring: commit block 7 followed by a stale commit block 3 ends recovery at transaction 9 |
| RecoverySpec.LastTransactionHangs | kernel/fs/fat/recovery.c:358-371 | a concrete log, with a commit block of transaction 65535, that reaches the mismatch branch |
| RecoverySpec.RevokePassRecords | kernel/fs/fat/recovery.c:327-340 | after n blocks of the revoke pass a record reaches s exactly if it did before or a revoke block on the way lists the block for a transaction of at least s |
| RecoverySpec.RevokePassMeans | kernel/fs/fat/recovery.c:108-112 | from a fresh table the pass leaves exactly the revocations the log holds |
| Recovery.JournalPointerIncrement | kernel/fs/fat/journal.c:285-290 | the next place on the ring |
| Recovery.JournalPointerMove | kernel/fs/fat/journal.c:294-306 | the move of MoveForwardIff and MoveBackIff |
| Recovery.CountTags | kernel/fs/fat/recovery.c:50-74 | the loop counts the offsets of ScanTags |
| Recovery.ReplayDescriptor | kernel/fs/fat/recovery.c:223-312 | the tag loop advances the log one block per tag it looks at |
| Recovery.OneBlock | kernel/fs/fat/recovery.c:162-348 | one iteration moves as the walk does and changes the table only in the revoke pass |
| Recovery.DoOnePass | kernel/fs/fat/recovery.c:129-377 | the walk, and the table after it |
| Recovery.JournalRecover | kernel/fs/fat/recovery.c:77-116 | the outcome of the three passes, and the table the revoke pass left |
| SchedulerSpec.SearchIsNearest | kernel/pc/pc.c:67-71 | the search finds the nearest live slot in cyclic order, and fails only if none is in reach |
| SchedulerSpec.InvalidIff | kernel/pc/pc.c:72-76 | the invalid-PCB branch is taken exactly when no slot is live |
| SchedulerSpec.NeverInvalid | kernel/pc/pc.c:46-117 | from start-up no event of any run reaches that branch, and slot 0 stays live |
| SchedulerSpec.KillExact | kernel/pc/pc.c:107-116 | killing makes exactly one slot dead, never slot 0; what each return code says |
| SchedulerSpec.CreateExact | kernel/pc/pc.c:92-98 | creating makes exactly one slot live, under its own number and with the three registers given; everything else stays |
| SchedulerSpec.ExitExact | kernel/pc/pc.c:100-105 | exiting makes exactly the current process dead and switches away from it; process 0 goes on |
| SchedulerSpec.CreatedStarts | kernel/pc/pc.c:63-117 | over every run a process created in a slot that is not current, and then neither killed nor replaced, is chosen within eight schedulings and starts with the registers given |
| SchedulerSpec.CreatedOverCurrent | kernel/pc/pc.c:63-98 | in the current slot the next scheduling overwrites them |
| SchedulerSpec.Nearer | kernel/pc/pc.c:63-80 | one scheduling chooses a live process or strictly lowers its distance |
| SchedulerSpec.BoundedWaiting | kernel/pc/pc.c:63-117 | with arbitrary creations and kills, a process that stays live is chosen within its cyclic distance of schedulings, so within eight |
| SchedulerSpec.AllLiveWait | kernel/pc/pc.c:63-80 | the bound is met when all slots are live |
| SchedulerSpec.Resumes | kernel/pc/pc.c:63-98 | a process resumes with the registers of its last preemption, but for those a creation into its slot sets |
| SchedulerSpec.ResumesItself | kernel/pc/pc.c:63-80 | a process that is alone goes on with its own registers |
| Scheduler.Processes.constructor | kernel/pc/pc.c:46-53 | only process 0 live, whatever the table held |
| Scheduler.Processes.PcSchedule | kernel/pc/pc.c:63-80 | the switch of the value layer, and false exactly in the invalid-PCB branch |
| Scheduler.Processes.PcPeek | kernel/pc/pc.c:82-90 | the first slot that is not live, or -1 if all are |
| Scheduler.Processes.PcCreate | kernel/pc/pc.c:92-98 | sets three registers and makes the slot live |
| Scheduler.Processes.PcKill | kernel/pc/pc.c:107-116 | kills a live process other than 0; the return code |
| Scheduler.Processes.PcKillSyscall | kernel/pc/pc.c:100-105 | the current process dies and another is chosen, unless it is process 0 |
| ShortNameSpec.NameSurvivesIff | kernel/fs/fat/fat.c:314-348 | a name comes back upper-cased exactly when it is an 8.3 name |
| ShortNameSpec.EntrySurvivesIff | kernel/fs/fat/fat.c:1516-1557 | an 11-byte entry comes back exactly when it is canonical |
| ShortNameSpec.PackIs | kernel/fs/fat/fat.c:314-348 | every byte of the 11-byte form |
| ShortNameSpec.UnpackIs | kernel/fs/fat/fat.c:1516-1557 | length and every byte of the dotted form |
| ShortNameSpec.DotEntries | kernel/fs/fat/fat.c:1525-1527 | the entries . and .. come out as such |
| ShortNames.FsNextSlash | kernel/fs/fat/fat.c:314-348 | the length of the path component and its 11-byte form |
| ShortNames.MoveExtension | kernel/fs/fat/fat.c:1545-1550 | the overlapping move puts the extension behind the dot, up to its first space |
| ShortNames.GetFilename | kernel/fs/fat/fat.c:1516-1557 | the zero-terminated dotted name |
| SlabSpec.FitsInBytes | kernel/mm/slab.c:29-37 | the slot condition in bytes: the page's remainder leaves room for the closing link |
| SlabSpec.FormatChained | kernel/mm/slab.c:59-81 | a formatted page holds an intact chain of all its objects, closed by the page's own address |
| SlabSpec.FormattedWords | kernel/mm/slab.c:59-81 | every word of a formatted page |
| SlabSpec.TakeAt | kernel/mm/slab.c:125-135 | taking an object moves on to the next and keeps chain and header exact, with nr_objs the number handed out; behind the last the page goes to the full list |
| SlabSpec.AllocConserves | kernel/mm/slab.c:83-137 | a request gets the first object remaining and keeps the rest; it fails exactly when none remains |
| SlabSpec.PagesConserved | kernel/mm/slab.c:83-137 | requests take pages in order and lose none: full pages, current page and supply stay the same sequence |
| SlabSpec.ClientWriteKeeps | kernel/mm/slab.c:33-34 | writing inside a handed-out object disturbs neither the chain nor what is still to be handed out |
| SlabSpec.RunConserves | kernel/mm/slab.c:83-137 | over every run of requests and client writes, what was handed out followed by what remains is constant, and so are the pages |
| SlabSpec.HandsOutStream | kernel/mm/slab.c:83-137 | from an empty cache every run hands out a prefix of all objects of its pages, ascending |
| SlabSpec.StreamIs | kernel/mm/slab.c:83-137 | the addresses handed out: of each page one slot of objsize + 4 bytes behind the other, from the second on |
| SlabSpec.PageObjects | kernel/mm/slab.c:59-74 | objects lie inside the page, clear of the header and of each other |
| SlabSpec.StreamApart | kernel/mm/slab.c:83-137 | no two objects ever handed out overlap |
| SlabSpec.SizesWork | kernel/mm/slab.c:15 | the number of slots of every kmalloc size |
| SlabSpec.SingleSlotStarves | kernel/mm/slab.c:91-117 | with one slot per page no request is ever served, and every page ends on the full list |
| SlabSpec.ServedIff | kernel/mm/slab.c:83-137 | a page serves a request exactly when two slots fit |
| Slab.LinkSlots | kernel/mm/slab.c:66-71 | the loop links every slot to the next |
| Slab.FormatSlabPage | kernel/mm/slab.c:59-81 | page memory becomes the formatted page |
| Slab.GetSlab | kernel/mm/slab.c:169-182 | the smallest cache that fits, one whose pages serve requests, for sizes up to 1536; none for larger ones |
| Slab.SlabCache.SlabAlloc | kernel/mm/slab.c:83-137 | the request on page memory, and false exactly where the code reports that memory is used up |

## Left out

- Journal commit and checkpoint (`commit.c`), the transaction and handle queues inside `fs_write`, and the `h_signal_bit` switches: the data-block loop at kernel/fs/fat/commit.c:216-219 has no exit, so there is no stable behaviour to state.
- Replay's write-back of data: `jread` returns 1 on success and its callers treat that as an error (kernel/fs/fat/recovery.c:34, 243-244), so nothing is written and the log stays as it is; only the traversal is modelled.
- `slab_free`, `kfree` and the dispatch in `kmalloc`: an object's link lies in its neighbour's first word, and the flag test at kernel/mm/slab.c:213 cannot hold after `__alloc_pages`.
- `split_mminfo`, which nothing calls, and alignment above one page in `find_pages`, which its `++index` step does not keep.
- Directory search and creation (`fs_find`, `fs_read_dir`, `fs_find_empty_entry`, `fs_create_with_attr`): they pass sector numbers where cluster numbers are expected.
- `get_time_string`, the SD, VGA and PS/2 drivers, inline assembly, interrupts, locks, TLB and exec, the shell, logging: hardware or user interface. Block reads and writes are reads and writes of a map from sectors to bytes and always succeed.
- The card as a whole: the first FAT copy with its mirror and the data clusters are separate maps, because RangesDisjoint shows that they share no sector. The FSInfo sectors 1 and 7 written by `fs_fflush` and the directory buffers are not on either map.
- `base_addr` is 0 in OpenFiles, since `fs_alloc` and `fs_clr_4k` use sector numbers without it, and clusters have 4096 bytes there, the size of the file buffers; the FAT buffer, ConversionsInverse and RangesDisjoint take any.
- The state word of a buffer holds only its two used bits. Bytes copied into a buffer are changed on the buffer's byte sequence, which is then stored whole.
- Page flags, `page->reference`, `page->virtual`, `page->slabp` (read back only through the partial list), process names, time slots and the PID listing: written or shown, never read by what is modelled.
- BuddyRuns.EveryRun: requires that clients free only blocks they hold and whose accepted siblings are free; FreeKeepsPartitionIff shows that nothing weaker works.
- AllocPages: in the buddy system it requires that free blocks do not overlap, which every allowed run keeps.
- FindPages: does not model the read of the cell behind the map at kernel/mm/bootmm.c:179 as an error; the map has that cell.
- FsRead: leaves out a sum loc + count of exactly 2^32 on a file of less than 2^20 clusters, where the loop reads FAT entries and sectors past the end of the chain; ReadPromiseIff covers that sum, too.
- FsWrite: a write that needs a new cluster starts with fs_alloc about to take a free one, which HintReadyIff characterises; a write inside the chain needs nothing. UnknownHintTakesClusterZero shows what fs_alloc does otherwise.
- EveryBootRun: consists of requests that reserve pages; ReservedIff says what the others do.
- CardRun: does not model two FILE structures open on the same file, nor the blocks of the FAT, the directory and FSInfo; a growing file gets a block of no file, as VolumeRun shows of fs_alloc.
- VolumeRun: requires that a free cluster exists when the fallback search runs; without one `fs_alloc` would use 0xFFFFFFFF as a cluster number.
- RevokeTable: leaves out failing `kmalloc`. Shift counts outside 0..31, undefined in C, are taken as MIPS takes them.
- ScanRevokeRecords: requires that r_count stays within the block, since the code reads past its buffer otherwise; DoOnePass and JournalRecover require it of the revoke blocks on the walk only.
- DoOnePass: looks at a given number of blocks; the code has no bound, and on a ring of blocks that all carry the expected transaction number it never ends.
- JournalRecover: takes `j_blocksize` as a parameter of at most 512, since nothing in the repository sets it.
- SlabAlloc: is told the pages the buddy system will return; the partial list is empty as long as nothing is freed.
- FormatSlabPage: requires that the closing link lies inside the page, which SizesWork shows for every kmalloc size.
- GetFilename: takes the buffers it is given as apart from the directory entry.
