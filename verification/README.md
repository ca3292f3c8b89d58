# A verified model of the console's file system, memory and USB cores

The retro gaming console kernel carries a FAT file system (FatFs), its own physical and virtual memory
management, and the Circle USB stack. This project models the parts of them whose correctness is hardest to see
by reading, and proves what they are for. The command for the whole project is `dafny verify dfyconfig.toml`.

**FAT file system** (`lib/src/fatfs/ff.c`, as configured: 512 byte sectors, no exFAT, long names, a private buffer
for each file, no fast seek). Four layers, each proved to be a simple object:

- `Storage`, `Volumes`: the one-sector write-back window. The card with the dirty window laid over it is one logical
  disk, and the second FAT mirrors the first (section 4 of the Microsoft FAT Specification).
- `FatEntries`: packed 12, 16 and 32 bit entries are one table from cluster to value.
- `FatChains`, `Allocator`: `remove_chain` and `create_chain` keep that table a set of disjoint, acyclic chains and
  the free cluster count right.
- `FileLayout`, `FlatFile`, `DataArea`, `Files`, `TwoFiles`: `f_read`, `f_write`, `f_lseek` and `f_truncate` on an
  open file are the operations of a byte sequence with a position. The bytes are those of the chain's sectors, with
  the file's dirty buffer laid over them. Two files that are open at once go through any sequence of operations as two
  flat files that share the free clusters and nothing else (`TwoFiles.Alternate`, `TwoFiles.TurnIsDetermined`), unless a
  truncation leaves a buffer at a cluster that was given up. `Shell` is the loop of `cat` on top.
- `LongNames`: long names written to directory entries are read back and compared as the same names (section 7 of the
  same specification).

**Memory** (`src/kernel`). `Frames` is the bitmap frame allocator. `PageTables` says, on values, what one descriptor
write does to a three-level tree of tables, and `Mmu` is `map`, `translate` and `unmap` with the ownership
invariant: every frame is free, or holds one table of the tree, or is in use elsewhere (the ghost set `foreign`).
`NewlibHeap` is the newlib break and `Dma` the buffer allocator on top of both, `SharedMap` the two of them together;
`DmaWindow` is the reservation protocol as a state machine over the steps of several cores.

**USB** (`lib/src/circle/usb`). `TrbRing` is the cycle-bit protocol of transfer, command and event rings (section 4.9
of the xHCI specification) between software and controller. `UsbConfig` is the configuration descriptor parser
(sections 9.6.3, 9.6.5 and 9.6.6 of the USB 2.0 specification).

`Machine` holds the fixed-width types. Code that changes objects in place is modelled by classes whose methods are
proved against functions and predicates on values; the theorems are lemmas about those.

## What the proofs found

- A transfer or command ring needs a tighter bound than "at most N-1 TRBs outstanding": with N-1 outstanding TRBs and
  the controller standing at the link TRB, the controller takes the ring for empty. `TrbRing.BoundIsExact` gives the exact bound,
  `TrbRing.StallAtLink` the run. The test for a full ring never holds (`TrbRing.FullIsNeverSeen`), so the code itself enforces no bound.
- `_sbrk` with an increment below the negated break passes the check for the heap's base, because the sum wraps.
  `NewlibHeap.Heap.FreeSbrk` says what follows, for every such increment: the break ends above the window, and for 4095 of
  them the loop unmaps every page from the end of the heap down to address 0 and frees the frames they lead to. Where one
  of these holds a table still in use, that table's frame is free from then on.
- `dma_alloc` with a size whose rounded value added to the bump pointer reaches 2^64 passes the window check. A call that
  runs alone still fails cleanly (`Dma.Buffers.Alloc`); between cores `DmaWindow.ReserveIsSafeExactly` states that this is
  the only way to lose safety, and `DmaWindow.TwoRangesMeet` shows two ranges that overlap.
- A clean file buffer can show a cluster that the file itself gave up in `f_truncate`; the contract of
  `Files.File.Truncate` says exactly when, `Files.CutLeavesBuffer` gives an input. When another file takes that cluster
  and writes it, the buffer is stale: `Files.BufferIsSafeExactly`.
- The USB parser means to accept one configuration descriptor, at the start, but it remembers the start by a last type of 0,
  so behind a descriptor of type 0 it accepts a second one: `UsbConfig.SecondConfiguration`, and nowhere else
  (`UsbConfig.ConfigurationFirst`).
- `map` does not always free the tables that it made before it failed. One second-level table, with nothing in it, stays
  linked exactly when the call gets stuck with one frame left at a page that misses both its tables
  (`PageTables.TableStays`, which can be told before the call; `PageTables.LastFrameStays` gives inputs). On a range that
  was not mapped, without empty tables before, there is no other trace: `Mmu.PageMap.MapAndUnmap`.
- Where comments and code differ, the model follows the code. `lib/include/lib/fatfs/ff.h:168` calls the free count
  invalid from `n_fatent - 2` on, but the code treats that value as a count; `include/kernel/pmm.h:77-80` says that
  `free_frame` checks nothing, but it ignores every address that is not a frame's; `include/kernel/mmu.h:71-74` says that a
  failed `map` frees the empty tables it made, which is true except in the case just named.

## Model

| member | source | states |
|---|---|---|
| `FatEntries.GetPut` | lib/src/fatfs/ff.c:1176-1303 | reading entry d after writing v to entry c gives v cut to the entry width when d is c and the old value otherwise, for packed 12 bit entries with shared bytes, 16 bit and 32 bit ones |
| `FatEntries.PutKeepsRest` | lib/src/fatfs/ff.c:1267-1299 | a write changes no byte outside the entry, and a 32 bit entry keeps its reserved top four bits |
| `FatEntries.TablePut` | lib/src/fatfs/ff.c:1254-1303 | on whole tables a write is the update of one element |
| `FatEntries.EntryFits` | lib/src/fatfs/ff.c:3622-3638 | the size check at mount guarantees that every entry, also a 12 bit one across a sector boundary, lies inside the FAT |
| `FatEntries.EntryOnDisk` | lib/src/fatfs/ff.c:1193-1224 | which bits of which bytes an entry is: two 12 bit entries in three bytes, 16 and 28 bit ones in two and four, low byte first |
| `Volumes.Volume.constructor` | lib/src/fatfs/ff.c:3640-3643 | a mounted volume starts with the card as its logical disk, an invalid free count, and stale marks only where the two FATs already differ |
| `Volumes.Volume.SyncWindow` | lib/src/fatfs/ff.c:1057-1073 | writing back never changes the logical disk outside the second FAT, also when the write fails; without faults the window ends clean and no FAT sector loses its mirror |
| `Volumes.Volume.ReflectToMirror` | lib/src/fatfs/ff.c:1068-1070 | the mirror write makes the second FAT equal on that sector; a failed one leaves just that sector stale and goes unreported |
| `Volumes.Volume.MoveWindow` | lib/src/fatfs/ff.c:1079-1100 | after success the window is the requested sector of the logical disk, which is unchanged outside the second FAT |
| `Volumes.MirrorIsExact` | lib/src/fatfs/ff.c:1065-1071 | with nothing stale or dirty the second FAT holds exactly the bytes of the first |
| `Volumes.WriteBackMirrored` | lib/src/fatfs/ff.c:1065-1071 | write-back followed by the mirror write keeps every first-FAT sector that is neither dirty nor stale equal to its mirror |
| `Volumes.MirrorWritten` | lib/src/fatfs/ff.c:1068-1070 | the mirror write alone: whatever a failed one leaves behind, only the second FAT differs and only that sector is stale |
| `Volumes.PokeFat` | lib/src/fatfs/ff.c:1267-1299 | a byte changed in the window is that byte of the FAT and no other |
| `Volumes.Volume.GetFat` | lib/src/fatfs/ff.c:1176-1244 | without disk errors: the table entry for a valid cluster, 1 for any other number, and the FAT unchanged |
| `Volumes.Volume.PutFat` | lib/src/fatfs/ff.c:1254-1303 | success means exactly one table entry changed, to the value cut to its width; an invalid number is an internal error and changes nothing |
| `Volumes.Volume.PutFat12` | lib/src/fatfs/ff.c:1267-1279 | both halves of a 12 bit entry are written through the window, across two sectors if need be |
| `Volumes.Volume.GetFat12` | lib/src/fatfs/ff.c:1193-1200 | both halves of a 12 bit entry are read through the window, across two sectors if need be |
| `FatChains.ChainIsAcyclic` | lib/src/fatfs/ff.c:1444-1530 | a chain that ends visits no cluster twice |
| `FatChains.ChainIsUnique` | lib/src/fatfs/ff.c:1444-1530 | a chain is determined by its first cluster |
| `FatChains.RemoveFrom` | lib/src/fatfs/ff.c:1468-1501 | the removal loop ends on every table, cyclic ones included, since each pass that goes on has turned a used entry into a free one |
| `FatChains.RemoveFreesChain` | lib/src/fatfs/ff.c:1468-1501 | on a proper chain the loop frees exactly the clusters of that chain |
| `FatChains.RemoveOnlyFrees` | lib/src/fatfs/ff.c:1468-1501 | on any table each entry is kept or freed, and success means that the first one is free |
| `FatChains.RemoveWholeChain` | lib/src/fatfs/ff.c:1444-1530 | removing from a head takes exactly that chain out of a set of disjoint chains |
| `FatChains.RemoveTail` | lib/src/fatfs/ff.c:1462-1501 | removing after a previous cluster frees exactly the tail and leaves the head as a chain beside all others |
| `FatChains.StretchKeepsPartition` | lib/src/fatfs/ff.c:1615-1619 | linking a free cluster behind a tail makes that chain longer by it and keeps all others |
| `FatChains.NewChainKeepsPartition` | lib/src/fatfs/ff.c:1615-1619 | a new chain of one free cluster is disjoint from all others |
| `FatChains.NextFreeIsTotal` | lib/src/fatfs/ff.c:1601-1614 | the wrap-around search has at most one outcome, and one exactly when some cluster is free |
| `FatChains.CountAfterUpdate` | lib/src/fatfs/ff.c:1478-1481 | how one entry update moves the number of free entries |
| `FatChains.CountBounds` | lib/src/fatfs/ff.c:1560-1626 | the count of free entries is 0 exactly on a full table and below its maximum while any entry is used |
| `FatChains.CountAfterGrowth` | lib/src/fatfs/ff.c:1615-1626 | each cluster that a chain gains is one free cluster less, and nothing else is |
| `Allocator.RemoveChain` | lib/src/fatfs/ff.c:1444-1530 | the table afterwards is that of the removal loop on the table cut at the previous cluster; a right free count stays right and an invalid one is not touched; bad arguments change nothing |
| `Allocator.RemoveLoop` | lib/src/fatfs/ff.c:1468-1501 | the imperative loop computes the specified removal and the counter grows by the entries freed |
| `Allocator.FindFree` | lib/src/fatfs/ff.c:1601-1614 | the scan returns the first free cluster in wrap-around order, 0 only on a full table |
| `Allocator.CreateChain` | lib/src/fatfs/ff.c:1539-1632 | an already followed cluster returns its successor and changes nothing; else the chosen cluster is the free neighbour or the first of the scan and is linked; the free count stays right or invalid |
| `Allocator.LinkNew` | lib/src/fatfs/ff.c:1615-1629 | marking and linking a new cluster and counting it |
| `Allocator.ZeroExactlyWhenFull` | lib/src/fatfs/ff.c:1539-1632 | on disjoint chains with a right or invalid free count, 0 is returned exactly when no entry is free, and never the internal error |
| `Allocator.CreatedKeepsPartition` | lib/src/fatfs/ff.c:1539-1632 | whatever is returned, the table remains a set of disjoint chains: unchanged, or one chain longer by a single previously free cluster |
| `Allocator.NearestFree` | lib/src/fatfs/ff.c:1549-1614 | the new cluster is the next one after the end of the chain (cluster 2 after the last one) if that is free; else, and for a new chain, the free cluster that comes first, going around, after the one allocated last |
| `Allocator.EndMark` | lib/src/fatfs/ff.c:1615-1615 | the mark that ends a chain is 0xFFF, 0xFFFF or 0xFFFFFFF in the three widths |
| `FileLayout.FileSectorsDiffer` | lib/src/fatfs/ff.c:1159-1167 | different sectors of a file are different sectors of the card |
| `FileLayout.ByteOnDisk` | lib/src/fatfs/ff.c:1159-1167 | in figures, the sector and the byte in it at which byte k of a file lies |
| `FileLayout.ByteAfterRun` | lib/src/fatfs/ff.c:4159-4163 | writing a run of sectors inside one cluster changes exactly the file bytes of that run |
| `FileLayout.SpanOfRun` | lib/src/fatfs/ff.c:4043-4048 | reading a run of sectors inside one cluster yields the file bytes at that place |
| `FlatFile.WriteThenRead` | lib/src/fatfs/ff.c:3996-4209 | on the flat file, what is written at a position is read back from it and the other bytes are the old ones |
| `FlatFile.ReadsDeliverAll` | lib/src/fatfs/ff.c:4015-4018 | reads of any positive size, one after the other until one delivers nothing, deliver the whole rest of the flat file |
| `FlatFile.SpliceSplice` | lib/src/fatfs/ff.c:4122-4204 | two adjacent writes are one write |
| `DataArea.TransferIn` | lib/src/fatfs/ff.c:4048-4048 | a direct read sees the logical disk, because the window never shows a sector of the file |
| `DataArea.TransferOut` | lib/src/fatfs/ff.c:4163-4163 | a direct write changes the logical disk in its run only |
| `Files.File.Open` | lib/src/fatfs/ff.c:3933-3948 | an opened file shows the bytes of its chain with the pointer at 0 |
| `Files.File.Read` | lib/src/fatfs/ff.c:3996-4087 | without disk errors f_read delivers all bytes that are wanted, or all that are left, and the pointer moves behind them: exactly the bytes of the file at the pointer, through direct transfers overlaid with the dirty buffer, refills and partial sectors; it changes neither the file nor the FAT, and keeps the buffer at sectors of the file |
| `Files.File.ReadStep` | lib/src/fatfs/ff.c:4018-4084 | each round delivers the next bytes of the flat file and moves the pointer by as many |
| `Files.File.ReadDirect` | lib/src/fatfs/ff.c:4043-4062 | sectors read directly are replaced by the buffer where the buffer is newer |
| `Files.File.Write` | lib/src/fatfs/ff.c:4097-4209 | without disk errors f_write puts its first bw bytes at the pointer, keeps the others and extends the size to the maximum. With a right or invalid free count bw is exactly what fits: all of the input, or 0xFFFFFFFF minus the pointer where the sum wraps, or what is left of the bytes of the file's clusters and the free ones; a short write ends at the end of the last cluster of a full volume. The chain grows by free clusters only, none of them in vain, and their number is what the volume has fewer; the other chains of every partition stay and nothing else on the card changes |
| `Files.File.WriteLoop` | lib/src/fatfs/ff.c:4122-4204 | the loop splices its input into the file, keeping buffer, chain and cursor consistent on every round; clusters join the chain only if they were free |
| `Files.File.TakeCluster` | lib/src/fatfs/ff.c:4138-4145 | the cluster found or allocated is the next link of the file's chain, which may grow by one free cluster and never changes otherwise |
| `Files.FollowOrStretch` | lib/src/fatfs/ff.c:4126-4145 | create_chain at link q-1 follows the chain inside it and stretches it at its end by a cluster that was free; all other entries and the free count are kept |
| `Files.File.Seek` | lib/src/fatfs/ff.c:4555-4710 | the pointer lands on the target (clipped to the size for a file opened for reading) or, on a full volume, at the end of the chain: with a right or invalid free count exactly on the smaller one of the target and what the file's clusters and the free ones hold; old bytes are kept, the size becomes the maximum, the chain grows by free clusters only, none of them in vain, and the other chains of every partition stay |
| `Files.File.FollowLoop` | lib/src/fatfs/ff.c:4661-4682 | following from any start link reaches the link that holds the target's previous byte, stretching the chain by free clusters only |
| `Files.SeekBase` | lib/src/fatfs/ff.c:4643-4648 | starting from the current cluster is right: its start is the pointer rounded down to the cluster size, and it precedes the target |
| `Files.ClusterIndex` | lib/src/fatfs/ff.c:4643-4646 | the index of a cluster by bytes is its index by sectors |
| `Files.File.Truncate` | lib/src/fatfs/ff.c:5036-5078 | f_truncate keeps exactly the bytes before the pointer and the clusters they need: the last one begins before the pointer and ends behind it. The others become free, the free count stays right, and so do the other chains of every partition; the buffer shows a sector of the file afterwards if and only if its sector lies before the cut |
| `Files.File.SureIsSpared` | lib/src/fatfs/ff.c:5036-5078 | a test of the file object alone that rules out such a cut: the pointer at the end or inside a sector, an unused buffer, or one in the current cluster |
| `Files.CutChain` | lib/src/fatfs/ff.c:5050-5062 | the removal that f_truncate starts cuts the file's chain at the pointer |
| `Files.CutCount` | lib/src/fatfs/ff.c:5050-5062 | each cluster that a file gives up is one free cluster more, and nothing else is |
| `Files.GrownKeepsChains` | lib/src/fatfs/ff.c:4126-4145 | whatever disjoint chains a volume consists of, after one of them, or an empty one, has grown by free clusters it consists of the same others and the longer one |
| `Files.CutKeepsChains` | lib/src/fatfs/ff.c:5050-5062 | the same when one of them is cut, to nothing included |
| `Files.BystanderKept` | lib/src/fatfs/ff.c:4097-4209 | a file whose chain avoids the clusters that another operation reaches keeps its chain and its bytes, and its clean buffer stays right if it shows a sector of its own |
| `Files.BufferIsSafeExactly` | lib/src/fatfs/ff.c:4137-4199 | a clean buffer stays right whatever is done to clusters of others, if and only if it shows no sector or one of the file's own |
| `Files.OwnAfterCut` | lib/src/fatfs/ff.c:5050-5062 | of the sectors of a file, exactly those in the clusters that stay are its own after a cut |
| `Files.CutLeavesBuffer` | lib/src/fatfs/ff.c:5036-5078 | a file of two clusters, cut between them while the buffer shows the second one |
| `Files.File.OtherKeptByGrowth` | lib/src/fatfs/ff.c:3996-4710 | after f_read, f_write or f_lseek on one file, another open file with a disjoint chain has the same bytes and position and a disjoint chain still, and is valid if its buffer showed nothing or a sector of its own before |
| `Files.File.OtherKeptByCut` | lib/src/fatfs/ff.c:5036-5078 | the same after f_truncate |
| `TwoFiles.ReadBeside` | lib/src/fatfs/ff.c:3996-4087 | two open files on one volume, each with its buffer at sectors of its own: reading one returns its bytes, leaves the bytes and the position of the other, and the two are beside each other as before |
| `TwoFiles.WriteBeside` | lib/src/fatfs/ff.c:4097-4209 | writing one file leaves the other one's bytes and position, and as much is written as the clusters of the file and the free ones have room for |
| `TwoFiles.SeekBeside` | lib/src/fatfs/ff.c:4555-4710 | so does seeking, past the end included |
| `TwoFiles.TruncateBeside` | lib/src/fatfs/ff.c:5036-5078 | truncating one leaves the other; the two are beside each other afterwards if and only if the cut spares the sector in the buffer |
| `TwoFiles.Perform` | lib/src/fatfs/ff.c:3996-5078 | any of the four operations on one file is one event of its flat file and none of the other's: what is read, how much is written and where a seek ends is given by the file, its clusters and the free ones, and clusters that one side gains the other loses |
| `TwoFiles.TurnIsDetermined` | lib/src/fatfs/ff.c:3996-5078 | with a right free count an operation on a pair of open files has one outcome, bytes, positions, cluster numbers and free clusters included; only the bytes that a seek beyond the end brings in are open |
| `TwoFiles.Alternate` | lib/src/fatfs/ff.c:3996-5078 | over every sequence of operations on two open files, in any order, each goes through its own ones as a flat file, and step by step they share nothing but the number of free clusters, which with a right or invalid count decides how much is written and how far seeks go; the run ends early only on an error or after a truncation that may have left the buffer at a freed cluster |
| `Shell.Cat` | src/kernel/shell/shell.cpp:244-259 | the loop of cat puts out the whole rest of the file, whatever the size of its pieces and wherever their borders lie; after an error what came out is a part of it from the beginning on, and without transfer errors there is none |
| `Files.RunSpliced` | lib/src/fatfs/ff.c:4158-4178 | overwriting whole sectors splices their bytes into the file |
| `Files.PartSpliced` | lib/src/fatfs/ff.c:4186-4202 | filling part of a buffered sector splices the bytes in, also on the growing edge where the sector was never read |
| `LongNames.PutLfn` | lib/src/fatfs/ff.c:1976-2001 | the entry holds the thirteen units of its part of the name, then terminator and filler, and the last entry carries the last-entry flag |
| `LongNames.EntryOnDisk` | lib/src/fatfs/ff.c:1976-2001 | an entry of a name byte by byte: order byte with the mark of the last part, units at bytes 1, 14 and 28, attribute 0x0F, type 0, check sum, no cluster |
| `LongNames.PickLfn` | lib/src/fatfs/ff.c:1938-1967 | exactly the entries with zero cluster field, intact filler and room in the buffer are accepted, and their units and nothing else are stored |
| `LongNames.CmpLfn` | lib/src/fatfs/ff.c:1902-1930 | exactly the entries that equal the buffer up to case, with intact filler, are accepted |
| `LongNames.StoreName` | lib/src/fatfs/ff.c:2567-2573 | a stored name becomes the full set of its entries, last part first |
| `LongNames.CollectName` | lib/src/fatfs/ff.c:2375-2382 | for every name of 1 to 255 units without 0 and 0xFFFF, reading its entries back gives the name; and whatever the entries are, they are taken for a complete name exactly if the last ones are a marked part and the parts below it down to 1, all accepted and with the same check sum |
| `LongNames.MatchName` | lib/src/fatfs/ff.c:2459-2468 | all entries of a name are accepted exactly when it agrees with the target up to case; and whatever the entries are, they match exactly if the last ones are a marked part and the parts below it down to 1, all matching and with the same check sum |
| `LongNames.AgreeIsEquality` | lib/src/fatfs/ff.c:1902-1930 | for a terminated target that agreement is equal length and equality unit by unit up to case |
| `LongNames.EntryMatches` | lib/src/fatfs/ff.c:1911-1929 | one entry is accepted exactly when its part agrees, given that the parts after it do |
| `LongNames.PickedPart` | lib/src/fatfs/ff.c:1949-1964 | an entry puts its part of the name, and a terminator where the name ends on its border, into the buffer |
| `Frames.Pmm.constructor` | src/kernel/pmm/pmm.cpp:31-68 | all frames are free. The bitmap begins less than a page above the kernel image, the frames less than a page above the bitmap of 8 byte words, so that no frame meets either of them, and less than a page below 0x3F800000 is left unused; padding bits are set |
| `Frames.Pmm.AllocFrame` | src/kernel/pmm/pmm.cpp:70-101 | the scan by words marks and returns the lowest free frame, and returns 0 exactly when there is none |
| `Frames.Pmm.AllocFrames` | src/kernel/pmm/pmm.cpp:103-136 | marks and returns the lowest run of n free frames, and returns 0 exactly for n = 0 or when there is no such run |
| `Frames.Pmm.FreeFrame` | src/kernel/pmm/pmm.cpp:138-153 | clears the bit of exactly the addressed frame, ignores every other address, and never touches the padding |
| `Frames.LowestRunIsTotal` | src/kernel/pmm/pmm.cpp:103-136 | a lowest run exists exactly when a run does, and there is only one |
| `Frames.SameFrame` | src/kernel/pmm/pmm.cpp:70-136 | the two allocators pick the same single frame |
| `Frames.Pmm.FirstZeroFound` | src/kernel/pmm/pmm.cpp:78-83 | owing to the padding, the first 0 bit in word order is a frame and the lowest free one |
| `Frames.PaddingDecides` | src/kernel/pmm/pmm.cpp:59-66 | with every frame in use the word scan finds nothing if and only if the padding is set |
| `Frames.FreeDeterminesBits` | src/kernel/pmm/pmm.cpp:20-27 | the set of free addresses determines the bitmap |
| `PageTables.NextInTree` | src/kernel/mmu/mmu.cpp:88-93 | an upper-level descriptor that is not zero leads to a table of the tree, at that very place |
| `PageTables.OneDescriptorEach` | src/kernel/mmu/mmu.cpp:88-190 | no table is reached by two descriptors and none leads back to the root |
| `PageTables.AddTable` | src/kernel/mmu/mmu.cpp:95-104 | hanging a new zeroed table under a free descriptor keeps the tree, every translation and every other step of a walk |
| `PageTables.WriteOnePage` | src/kernel/mmu/mmu.cpp:71-74 | writing a page descriptor changes the translation of that page only |
| `PageTables.DropTable` | src/kernel/mmu/mmu.cpp:164-179 | clearing the descriptor of an empty table takes just it off the tree and keeps every translation |
| `PageTables.EveryTableIsUsed` | src/kernel/mmu/mmu.cpp:164-179 | without empty tables every table lies on the walk to a mapped page |
| `PageTables.SameTranslationsSameTables` | src/kernel/mmu/mmu.cpp:42-190 | tables added and dropped again: equal translations and no empty tables mean the same tables at the same places |
| `PageTables.MapThenUnmap` | src/kernel/mmu/mmu.cpp:42-190 | mapping and unmapping an unmapped range restores every translation and every table, given no empty tables before |
| `PageTables.OneTableLess` | src/kernel/mmu/mmu.cpp:141-179 | page by page, unmap frees exactly the third-level tables in which only pages of the range were mapped, and stops at the first page without a table; both are told by the translations before the call |
| `PageTables.MappedTranslates` | src/kernel/mmu/mmu.cpp:42-130 | after map, every byte of the range translates to phys plus its offset and every other address as before |
| `PageTables.MappedDescribed` | src/kernel/mmu/mmu.cpp:72-74 | a mapped page has a descriptor of the frame's address, the flags in bits 2 to 11, and both low bits set |
| `PageTables.UndoneUnmapped` | src/kernel/mmu/mmu.cpp:57-69 | a failed map of an unmapped range changes no translation |
| `PageTables.LeftAfterUndo` | src/kernel/mmu/mmu.cpp:57-69 | after the undoing, a table is new exactly if one was made in vain at the page where the call got stuck, although later pages share tables with earlier ones |
| `PageTables.OldTables` | src/kernel/mmu/mmu.cpp:141-190 | undoing leaves no table that was made on the way: what is still there was there before |
| `PageTables.StaysWhereStopped` | src/kernel/mmu/mmu.cpp:50-69 | whether a table stays can be told before the call, from the free frames and the missing tables |
| `PageTables.TablesAfterUndone` | src/kernel/mmu/mmu.cpp:57-69 | on an unmapped range, without empty tables before, a failed map leaves every table as it was if and only if none stays, else one more |
| `PageTables.LastFrameStays` | src/kernel/mmu/mmu.cpp:57-69 | with one free frame and nothing mapped, every single page is such an input |
| `PageTables.MappedThenCleared` | src/kernel/mmu/mmu.cpp:58-61 | the pages mapped before the failure are all mapped when the undoing starts, so it clears every one of them |
| `PageTables.IndicesDetermine` | src/kernel/mmu/mmu.cpp:54-71 | the three table indices determine the page number |
| `PageTables.IndicesOf` | src/kernel/mmu/mmu.cpp:54-72 | the three indices are the nine bit fields of the page number, from the highest down |
| `PageTables.OneMoreMissing` | src/kernel/mmu/mmu.cpp:50-75 | the tables that are missing for a range of pages add up page by page, as they are made |
| `PageTables.MissingAtMost` | src/kernel/mmu/mmu.cpp:50-75 | no range misses more than two tables for each of its pages |
| `Mmu.PageMap.constructor` | src/kernel/mmu/mmu.cpp:222-234 | after the first table is installed the tree is that table alone and nothing is mapped |
| `Mmu.PageMap.GetOrAllocTable` | src/kernel/mmu/mmu.cpp:88-105 | the table below an entry: the existing one, with nothing changed, or a new one, with the tree, all translations, every other table's place and what the frames of others hold kept and one frame less free; 0 exactly when one is needed and none is free, and then nothing changes |
| `Mmu.PageMap.TableIsEmpty` | src/kernel/mmu/mmu.cpp:192-197 | true exactly when all 512 descriptors are zero |
| `Mmu.PageMap.ReleaseIfEmpty` | src/kernel/mmu/mmu.cpp:164-179 | an empty table loses its descriptor and its frame is freed; a table in use stays |
| `Mmu.PageMap.Map` | src/kernel/mmu/mmu.cpp:42-86 | all pages mapped and nothing else changed, or the whole call undone; it succeeds if and only if the tables missing for the pages are at most as many as the free frames, makes exactly those and takes exactly as many frames. Each page gets its frame's address and the flags with both low bits. After a failure just one table is new, and empty, if the call got stuck with one frame left at a page that misses both its tables, and none otherwise; on pages that were not mapped, without empty tables, no old table is gone either. The tree stays, and so does what the frames of others hold |
| `Mmu.PageMap.ReachTable` | src/kernel/mmu/mmu.cpp:57-69 | for one page exactly the missing tables are made, with one frame each; it fails exactly when fewer frames are free, and then no frame is left: with none to begin with nothing has changed, with one it holds a new second-level table with nothing in it |
| `Mmu.PageMap.MapPage` | src/kernel/mmu/mmu.cpp:50-75 | one page: its translation alone changes; or none does, and at most the last free frame has become one empty second-level table |
| `Mmu.PageMap.UnmapLocked` | src/kernel/mmu/mmu.cpp:141-190 | pages are cleared up to exactly the first one that has no table, or whose table went with the pages cleared before, all of them for a fully mapped range; exactly the third-level tables are freed in which nothing is mapped any more, no empty table appears, and only frames of tables are written; also where the frame allocator takes some of these frames for free |
| `Mmu.PageMap.UnmapPage` | src/kernel/mmu/mmu.cpp:146-179 | one page cleared with its empty tables, or, exactly if it has no third-level table, an early end that changes nothing |
| `Mmu.PageMap.Unmap` | src/kernel/mmu/mmu.cpp:132-139 | as for the locked form; what the frames of others hold stays |
| `Mmu.PageMap.Translate` | src/kernel/mmu/mmu.cpp:107-130 | for every 64 bit address: the physical address of a mapped byte, and the sentinel for every other |
| `Mmu.PageMap.MapAndUnmap` | src/kernel/mmu/mmu.cpp:42-190 | map then unmap of an unmapped range restores translations, tables and the exact frame bitmap, given no empty tables before; a failed map restores the translations, and the tables and the bitmap if and only if no table stays, else they differ by one table and its frame |
| `Mmu.PageMap.NoDanglingDescriptor` | src/kernel/mmu/mmu.cpp:88-190 | every table that a descriptor leads to is a used frame that no one else holds and no other descriptor reaches |
| `Mmu.PageMap.TakeFrame` | src/kernel/pmm/pmm.cpp:70-101 | a frame allocated for data was neither free for anyone else, nor a table, nor in use |
| `Mmu.PageMap.TakeFrames` | src/kernel/pmm/pmm.cpp:103-136 | the same for a run of frames |
| `Mmu.PageMap.GiveFrame` | src/kernel/pmm/pmm.cpp:138-153 | a frame in use elsewhere becomes free, and the tables and the other users keep theirs; freeing any other address at least keeps the tree |
| `NewlibHeap.ShrinkCheck` | src/kernel/libc_retarget/libc_retarget.cpp:68-73 | the check for a shrink below the base is right if and only if the increment is not below the negated break; below it the wrapped sum passes and lies past the window, and it rounds up to 0 for exactly the 4095 largest of these increments, for which the loop does not stop at the base |
| `NewlibHeap.Heap.constructor` | src/kernel/libc_retarget/libc_retarget.cpp:39-42 | the heap starts empty at 0x180000000 |
| `NewlibHeap.Heap.InRange` | src/kernel/libc_retarget/libc_retarget.cpp:39-40 | at any time the heap lies between 0x180000000 and 0x1B8000000 and its pages are mapped as normal cacheable memory (attribute index 0, access flag set) |
| `NewlibHeap.Heap.AddPage` | src/kernel/libc_retarget/libc_retarget.cpp:128-144 | one page more with a frame nobody held, or the heap and all translations as before; then, without empty tables before, tables and frames are as before as well, if and only if map keeps no table for which it took the last frame; the pages of the heap are mapped cacheable (attribute index 0, access flag set) |
| `NewlibHeap.Heap.DropPage` | src/kernel/libc_retarget/libc_retarget.cpp:75-82 | one page less, and exactly its frame freed; below the base, whatever page is there |
| `NewlibHeap.Heap.FreeSbrk` | src/kernel/libc_retarget/libc_retarget.cpp:68-86 | for every negative increment: the heap is valid afterwards if and only if the increment is not below the negated break. Then a shrink is refused exactly below the base, else the end is the break rounded up and exactly the frames of the pages unmapped are freed. Otherwise the call succeeds with a break above the window, and either changes no page or unmaps every page below the end down to address 0: it frees every frame these pages led to and every table that got empty, no other, and the ownership of frames survives if and only if no table still in use was among them |
| `NewlibHeap.OneMoreFreed` | src/kernel/libc_retarget/libc_retarget.cpp:75-82 | page by page, the frames freed are those the pages led to before the call and those of the tables dropped |
| `NewlibHeap.SharedAfterFreeing` | src/kernel/libc_retarget/libc_retarget.cpp:75-82 | freeing whatever a range leads to keeps the ownership of frames right if and only if no table in use is among it |
| `NewlibHeap.Heap.Extend` | src/kernel/libc_retarget/libc_retarget.cpp:119-150 | growth maps exactly the pages needed, each to its own new frame; it fails if and only if the break would pass the limit or fewer frames are free than the pages and their missing tables need, and on success takes exactly that many; on failure for want of frames exactly the pages that these suffice for have been added |
| `NewlibHeap.Heap.Sbrk` | src/kernel/libc_retarget/libc_retarget.cpp:98-152 | for every increment: base <= break <= end <= base + max, page alignment, and one used frame of its own behind every page below the end hold after the call if and only if the increment is not below the negated break; the result is the old break or the failure value, the latter exactly when the request leaves the window or frames run out |
| `DmaWindow.SafeAfterStep` | src/kernel/dma/dma.cpp:25-93 | every step of every core keeps live ranges disjoint and below the bump pointer |
| `DmaWindow.SafeAfterReclaim` | src/kernel/dma/dma.cpp:78-93 | a roll-back moves the pointer over the given-up range only |
| `DmaWindow.EveryRunIsSafe` | src/kernel/dma/dma.cpp:25-93 | so does every interleaving of reservations, roll-backs and frees |
| `DmaWindow.NewRangeIsOwn` | src/kernel/dma/dma.cpp:32-37 | after any interleaving a new reservation meets nothing that another core holds |
| `DmaWindow.ReserveIsSafeExactly` | src/kernel/dma/dma.cpp:26-37 | a reservation keeps the state of all cores safe if and only if the pointer plus the rounded size stays below 2^64 |
| `DmaWindow.WrapIsReachable` | src/kernel/dma/dma.cpp:32-37 | a size with which the check passes and the pointer falls below the window |
| `DmaWindow.TwoRangesMeet` | src/kernel/dma/dma.cpp:32-37 | with such a size in flight on one core, another core is given a range that meets one handed out before |
| `DmaWindow.WindowSizesDoNotWrap` | src/kernel/dma/dma.cpp:26-27 | ordinary sizes are within that condition and round up to whole pages |
| `Dma.Buffers.Reserve` | src/kernel/dma/dma.cpp:29-39 | the reservation step of the state machine |
| `Dma.Buffers.Reclaim` | src/kernel/dma/dma.cpp:78-93 | the roll-back step of the state machine |
| `Dma.Buffers.Alloc` | src/kernel/dma/dma.cpp:25-61 | for every size: a buffer of contiguous frames nobody held, mapped at the reserved range, or nothing, and then no address and no frame of the buffer is lost and no translation differs; it fails if and only if the window check fails, no run of that many frames is free, or too few frames are left for the missing tables, and it loses one frame, to an empty table, if and only if map does; what the frames of others hold stays; the buffer lies in the window, holds the size in whole pages, and is mapped non-cacheable (attribute index 2, access flag set) |
| `Dma.Buffers.Free` | src/kernel/dma/dma.cpp:63-76 | a live buffer, given with its size as include/kernel/dma.h:62 demands, is unmapped and exactly its frames are freed; an unmapped address is ignored with any size |
| `Dma.AllocThenFree` | src/kernel/dma/dma.cpp:25-76 | a buffer allocated and freed leaves translations and used frames as they were |
| `Dma.BufferTranslates` | src/kernel/dma/dma.cpp:41-60 | every byte of a buffer translates to the byte at the same distance in the run of frames |
| `SharedMap.HeldByGrowth` | src/kernel/libc_retarget/libc_retarget.cpp:119-150 | growing the newlib heap leaves every live DMA buffer in place, with its frames apart from the heap's |
| `SharedMap.HeldByShrinking` | src/kernel/libc_retarget/libc_retarget.cpp:68-86 | so does shrinking it |
| `SharedMap.HeldWithOneMore` | src/kernel/dma/dma.cpp:25-61 | a new buffer leaves the heap and all live buffers, and shares no page or frame with any of them |
| `SharedMap.HeldWithOneLess` | src/kernel/dma/dma.cpp:63-76 | a freed buffer leaves the heap and all other live buffers |
| `SharedMap.SbrkBeside` | src/kernel/libc_retarget/libc_retarget.cpp:98-152 | heap and buffers over one page map: _sbrk with an increment not below the negated break keeps both valid and every live buffer |
| `SharedMap.AllocBeside` | src/kernel/dma/dma.cpp:25-61 | dma_alloc keeps both and adds at most its own buffer |
| `SharedMap.FreeBeside` | src/kernel/dma/dma.cpp:63-76 | dma_free keeps both and takes away just its own buffer |
| `TrbRing.PutWritten` | lib/src/circle/usb/xhciring.cpp:133-155 | writing keeps every slot before the index in the current lap and every other, the link TRB included, in the lap before |
| `TrbRing.WriterPosition` | lib/src/circle/usb/xhciring.cpp:133-155 | the number of TRBs written gives the writer's index and cycle state: all slots in turn, but for the last one where it holds the link |
| `TrbRing.FullIsNeverSeen` | lib/src/circle/usb/xhciring.cpp:101-112 | the writer's test for a full ring never holds, however far the reader lags |
| `TrbRing.ReadyExactly` | lib/src/circle/usb/xhciring.cpp:88-99 | a reader at most one ring behind finds its slot ready exactly while something is unread, and finds what was written |
| `TrbRing.TooFarBehind` | lib/src/circle/usb/xhciring.cpp:101-155 | a reader further behind takes a slot with unread data for an empty one |
| `TrbRing.BoundIsExact` | lib/src/circle/usb/xhciring.cpp:101-155 | counted in TRBs: at most one ring behind if and only if at most N-1 data TRBs are unread, and fewer than that for a reader at the link TRB |
| `TrbRing.AdvanceReads` | lib/src/circle/usb/xhciring.cpp:114-131 | each move of the reader delivers the next TRB, and passing the link TRB delivers none |
| `TrbRing.InOrderOnceEach` | lib/src/circle/usb/xhciring.cpp:88-155 | over every run within the bound the reader has received a prefix of what was written, its next TRB is the next one, and it stops exactly at the writer's index with everything received; with a link TRB and, for event rings, without |
| `TrbRing.StallAtLink` | lib/src/circle/usb/xhciring.cpp:133-155 | for every ring with a link TRB, a run with N-1 unread TRBs whose reader stands at the link TRB and takes the ring for empty |
| `TrbRing.XhciRing.constructor` | lib/src/circle/usb/xhciring.cpp:28-57 | a new ring is valid exactly when memory for it was to be had, and is then all zero but for the toggle bit of the link TRB in the last slot; it starts at slot 0 with the cycle state set |
| `TrbRing.XhciRing.GetEnqueueTRB` | lib/src/circle/usb/xhciring.cpp:101-112 | always the writer's slot |
| `TrbRing.XhciRing.IncrementEnqueue` | lib/src/circle/usb/xhciring.cpp:133-155 | the writer's step, with the hand-over of the link TRB at the end of the ring |
| `TrbRing.XhciRing.Enqueue` | lib/src/circle/usb/xhciendpoint.cpp:522-543 | a TRB filled with the cycle state and handed over is appended to what was sent |
| `TrbRing.XhciRing.GetDequeueTRB` | lib/src/circle/usb/xhciring.cpp:88-99 | the reader's slot exactly when it is ready |
| `TrbRing.XhciRing.IncrementDequeue` | lib/src/circle/usb/xhciring.cpp:114-131 | the reader's step on an event ring |
| `UsbConfig.ConfigurationParser.constructor` | lib/src/circle/usb/usbconfigparser.cpp:27-141 | accepts exactly the buffers of 4 to 1024 bytes whose descriptors, of non-zero length, lie end to end up to the total length or a zero length byte, in plain bytes: type 2 has length 9 and comes first or behind a descriptor of type 0; type 4 has length 9 and something of a type other than 0 before it; type 5 follows something of a type other than 0 and 2 and has length 7, or 9 if the last interface before it has class 1 and a protocol other than 0x20 |
| `UsbConfig.AcceptedExactly` | lib/src/circle/usb/usbconfigparser.cpp:59-140 | the scan with its running type and audio flag decides exactly that statement about bytes, in both directions |
| `UsbConfig.ConfigurationFirst` | lib/src/circle/usb/usbconfigparser.cpp:79-86 | an accepted buffer begins with a configuration descriptor, and has another one only behind a descriptor of type 0 |
| `UsbConfig.SecondConfiguration` | lib/src/circle/usb/usbconfigparser.cpp:79-86 | bytes with two configuration descriptors that are accepted |
| `UsbConfig.KeyboardIsAccepted` | lib/src/circle/usb/usbconfigparser.cpp:100-118 | an ordinary keyboard configuration, with an endpoint of 7 bytes, is accepted |
| `UsbConfig.ConfigurationParser.Validate` | lib/src/circle/usb/usbconfigparser.cpp:56-140 | the validating loop decides that for every possible end |
| `UsbConfig.EndIsUnique` | lib/src/circle/usb/usbconfigparser.cpp:59-140 | a buffer is tiled in this way up to one end only |
| `UsbConfig.LaidIsTiled` | lib/src/circle/usb/usbconfigparser.cpp:59-132 | the places imply the plain tiling that the walks rely on |
| `UsbConfig.ConfigurationParser.GetDescriptor` | lib/src/circle/usb/usbconfigparser.cpp:172-210 | every walk ends and stays inside the buffer; it returns the first descriptor of the type, or none, and resumes behind it |
| `UsbConfig.SkipsOthers` | lib/src/circle/usb/usbconfigparser.cpp:178-200 | every descriptor passed over is of another type, and for endpoints no interface either |
| `UsbConfig.RepeatedFindsAll` | lib/src/circle/usb/usbconfigparser.cpp:172-210 | repeated searches return every descriptor of the type once and in order |
| `UsbConfig.EndpointsOfInterface` | lib/src/circle/usb/usbconfigparser.cpp:186-190 | repeated endpoint searches return the endpoints before the next interface and stop there |

## Left out

- Files.File.Seek: does not say what the bytes between the old and the new end of an extended file are; the code leaves them unspecified.
- Files.File.Read: after a disk error only the invariant, the sticky error and the bytes of other files are stated, as the code promises no more.
- Files.File.Write: after a disk error only the invariant, the sticky error and the bytes of other files are stated. With a free count that is valid but wrong, how much is written is only bounded: a short write still ends at the end of the file's last cluster.
- Files.File.Open: takes start cluster, size and access mode as parameters; path lookup, creation and append mode are not modelled.
- NewlibHeap.Heap.FreeSbrk: in the model the loop that runs below the base comes to its end; on the machine it takes away the pages that the running code lies in.
- Dma.Buffers.Alloc: runs without other cores' steps between its two locked sections; those are in `DmaWindow` only. Alone it is safe for every size, since a wrapping size asks for more frames than there are and is rolled back; interleaved it is not.
- Dma.Buffers.Free: is not specified for a size other than the one the buffer was allocated with, nor for an address inside a page of a buffer.
- Files.File.OtherKeptByGrowth: speaks of calls that end without a disk error; after one, `Files.File.Write` and its like still say that no sector outside the file and its new clusters has changed.
- TwoFiles.Alternate: ends after a truncation on a sector border while the buffer is not at the current cluster, although such a cut can spare the buffer; `TwoFiles.Perform` says exactly when the files stay beside each other.
- Mmu.PageMap.Map: takes ranges inside the 39 bit virtual space and flag values inside the page offset, as all callers pass. What frames hold is modelled as descriptors, for all frames alike.
- Mmu.PageMap.constructor: ends where the first table is installed; the identity mappings that follow are calls of `map`.
- LongNames.CollectName: names that contain the unit 0xFFFF are outside the statement, since that unit is the filler.
- LongNames.MatchName: `ff_wtoupper` is any function that maps 0, and only 0, to 0; the Unicode tables are not part of this model.
- Bit operations on words are written as division and remainder, bitmap words as sequences of 64 booleans, and the mask by a power of two cluster size as a remainder.
- Spin locks: each locked section is one atomic step. Barriers, cache and TLB maintenance are not modelled.
- `validate`, `f_sync`, `sync_fs` and the FSInfo sector, directory allocation, and file locks.
- Code switched off by the configuration: exFAT, `f_mkfs`, `f_expand`, fast seek, trimming.
- The SD host driver and the disk glue: the card is an array of sectors whose transfers may fail and then leave anything behind.
- `kmalloc`, which ignores the result of `map`.
- Reads of the interface class and protocol bytes before the length check of the USB parser: for a descriptor of the wrong length, which is rejected, the model does not read them.
- USB transfers beyond the ring: doorbells, completion events and their handlers.
- Display, terminal, device drivers, and the shell but for the loop of `cat`.
