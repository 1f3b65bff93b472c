# hausboot in Dafny

hausboot is a BIOS boot chain: a boot sector loads stage 2, stage 2 reads a FAT32 volume, interprets
a script and loads a multiboot kernel; host tools put files and stage 2 on the image. This project
models the parts of it that carry the hard obligations and proves what they keep:

* **Heap** (`HeapBlocks`, `Heap`): the stage-2 allocator over an array of words, with the headers
  stored in the memory that is handed out. A ghost list of blocks says what the chain of headers
  means; every run of calls, with clients writing through the pointers they hold, keeps the chain
  tiling the arena and leaves every live word alone.
* **fatedit** (`FatSuper`, `FatChains`, `FatRaw`, `FatState`, `FatContent`, `FatAppend`, `FatCopies`,
  `FatKept`, `FsInfo`, `Volume`, `FileWriter`, `FatStream`, `FileReader`): the table as a forest of
  chains, allocation, appending, reading, and writing the tables back. `Formatted` says how a fresh
  volume looks, from which everything starts.
* **Directories** (`ShortName`, `Dirent`, `Directory`, `LongNames`, `DirectoryEdit`): 8.3 names, records
  with long names, the scan, and adding an entry. `LongNames` lays out long names as they are on disk,
  which fatedit only reads, and shows that the scan gives them back.
* **Boot loader** (`LoaderSpec`, `Loader`, `Lookup`, `LoaderFind`, `Paths`, `LoaderPath`,
  `LoaderLoops`): the second FAT32 implementation, with its two cache windows, proved to refine one
  without windows; and exactly on which disks its lookups never end.
* **Both together** (`Agreement`, `FindAgreement`, `EndToEnd`, `PackCommand`, `PackLedger`,
  `PackRun`): what fatedit packs, in any number of commands, the loader finds under its name and
  reads back byte by byte. A few numbers and the names in the directory, taken before the first
  command, foretell what each of them comes to.
* **Kernel** (`Multiboot`, `KernelFile`, `HeaderSearch`, `MemoryCopy`, `KernelLoad`, `KernelStored`,
  `KernelBoot`): the search for the header, the layout, loading and clearing memory, and the command
  of the boot script that does all of it.
* **The whole chain** (`BootChain`): from files handed to fatedit to a kernel in memory.
* **Script** (`Script`, `ScriptText`): the in-place tokeniser against a grammar of lines, and scripts as
  texts.
* **Codecs** (`DiskGeometry`, `Stage2`): sector addresses and registers, the checksum of stage 2.

`Surprises` shows inputs at which the code does something unexpected; `Bytes` and `Arith` hold what
all modules share. The main theorems are `BootChain.PackAndLoadKernel`, `PackRun.Session`,
`PackLedger.PacksEnd`, `PackCommand.PackAndBoot`, `EndToEnd.PackAndRead`, `Heap.RunSafe`,
`HeapBlocks.FreeAllRestores`, `Volume.Volume.AllocateClusterAfter`, `FileWriter.FileWriter.Append`,
`DirectoryEdit.AddAndList`, `LongNames.LongGroupListed`, `FindAgreement.LoaderFindsListed`,
`LoaderPath.FindByPath`, `LoaderLoops.AlwaysEndless`, `HeaderSearch.MBFindHeader`,
`KernelLoad.LoadExact` and `Script.RunScript`.

## Reading the model

* Exceptions are `Throws`, `null` or `false`; a read or load that fails is one the model may let fail
  at any point (`FatFs.faults`), and contracts say what holds then.
* 32-bit arithmetic is cut explicitly. `Span(n, m)` is the product, built up cluster by cluster.
* A definition of the form `forall u {:trigger Open(u)} :: Open(u) && P` says P. It keeps the
  verifier from looking into P except in the proofs that mention `Open`; `Shown`/`IsRound` and
  `Key`/`Marks` do the same for a function. A predicate written `var p := A && B; p` says A and B,
  as one proof obligation instead of two.
* Bit fields are written as quotients and remainders by powers of two.

Where the code does not do what one would expect, the model follows the code. One lemma says exactly
when the expectation holds, and one in `Surprises` or `Formatted` shows an input at which it fails:

* an image must stay below 4 GiB, since offsets are multiplied in 32 bits (`FatSuper.OffsetExact`,
  `Surprises.FarClusterLost`);
* the scan for free clusters starts at entry 0 (`FatChains.FirstFreeIsCluster`,
  `Surprises.ReservedEntryTaken`) and never reaches the last two clusters of the data area
  (`FatState.LastTwoUnused`, `Formatted.TwoFreeNoneFound`);
* fatedit masks the top four bits of a table entry, the loader does not, and the loader takes
  0x0FFFFFF0 to 0x0FFFFFF7 for the end of a chain, fatedit for links (`FatRaw.CleanEntry`,
  `FatRaw.LinkEndsChain`, `Surprises.TopBitEndsChain`, `Surprises.EarlyStop`);
* after an entry that exactly fills a cluster no further entry can be added, so the clusters that
  are free do not matter any more (`DirectoryEdit.NextMatches`, `PackLedger.PacksEnd`,
  `Surprises.SixteenthEntry`, `Formatted.SixteenFiles`);
* a name with outer spaces does not survive its padded form, and one that starts with a space makes
  the directory unreadable for fatedit (`ShortName.NameRoundTrip`, `PackRun.PackedListing`,
  `Surprises.SpaceInFront`);
* the name of a listed file is put together in a buffer of twelve bytes, one too few for eight and
  three characters (`ShortName.NameBuffer`, `Surprises.TwelveCharacters`);
* nothing bounds how many clusters of a directory the loader looks through: where the links lead in
  a circle that has neither the name nor an end mark, it never stops (`LoaderLoops.AlwaysEndless`,
  `LoaderLoops.SometimesEndless`, `Surprises.LookupWithoutEnd`);
* an empty file has no size limit for the loader (`Agreement.EmptyFileReadsGarbage`,
  `Surprises.EmptyFileHasByte`);
* a load that fails half-way leaves a window that no longer holds what its index says
  (`LoaderSpec.FailedLoad`, `Surprises.PartialLoad`);
* a record behind a long name is listed by fatedit even if it is the end mark, where the loader stops
  (`Lookup.LookupAgrees`, `PackCommand.NewEntryFound`, `Surprises.EndMarkListed`);
* a header that the end of the file cuts off can be taken for a valid one (`Multiboot.ShortHeader`,
  `Multiboot.FoolingBytes`);
* whole chunks are copied, up to a bound of `count - fileStart`, and the BSS is cleared behind what
  was copied (`KernelLoad.LoadExact`, `KernelLoad.CopiedExactly`, `Surprises.WrongCounts`);
* the check that BSS comes behind text and data compares with the start of the text only
  (`Multiboot.LayoutMeaning`, `Surprises.BssInsideText`);
* a request that wraps around when rounded up gets a block that is too small
  (`HeapBlocks.ReservedHolds`, `Surprises.HugeRequestGranted`);
* sectors beyond 1024 cylinders are read from somewhere else (`DiskGeometry.AddressRoundTrip`,
  `Surprises.CylinderWraps`);
* an image whose words add up to zero cannot be installed (`Stage2.Install`,
  `Surprises.ZeroSumImage`), one that is not whole sectors has words summed that lie behind its
  buffer (`Stage2.SumInBuffer`, which shows it for every other size below 65535 sectors), and one of
  more than 30 sectors can be installed but does not boot (`Stage2.VbrAccepts`,
  `Surprises.ThirtyOneSectors`).

## Model

| member | source | states |
|---|---|---|
| `HeapBlocks.BestFit` | stage2/heap.cpp:98-107 | the earliest among the smallest free blocks that are large enough, and none exactly when there is no such block |
| `HeapBlocks.Words` | stage2/heap.cpp:95-96 | a request is rounded up to whole words; within three bytes of the 32-bit limit it wraps to zero |
| `HeapBlocks.ReservedHolds` | stage2/heap.cpp:93-108 | the block handed out holds the requested bytes if and only if rounding did not wrap |
| `HeapBlocks.BlocksDisjoint` | stage2/heap.cpp:32-46 | payloads are pairwise disjoint and meet no header |
| `HeapBlocks.ReserveKeeps` | stage2/heap.cpp:32-46 | taking a block, with or without splitting it, keeps the arena tiled and free blocks apart |
| `HeapBlocks.ReserveCarves` | stage2/heap.cpp:32-46 | a block is split exactly if a header and a word are left; the two then cover the old block, and no other block changes |
| `HeapBlocks.GrantsBest` | stage2/heap.cpp:93-108 | malloc hands out the earliest smallest adequate block, and exactly one block is live that was not; it has less than a header and a word more than was asked for, and the rest of the old block is one free block behind it |
| `HeapBlocks.ReserveLive` | stage2/heap.cpp:32-46 | a reservation adds exactly its block to the live ones |
| `HeapBlocks.MergeAtCoalesce` | stage2/heap.cpp:61-67 | merging any one free pair first does not change what all merges lead to |
| `HeapBlocks.CoalesceSettles` | stage2/heap.cpp:119-131 | after all merges no two neighbours are free, and the arena is still tiled |
| `HeapBlocks.CoalesceLive` | stage2/heap.cpp:119-131 | merging leaves the blocks in use as they are |
| `HeapBlocks.TilingTotal` | stage2/heap.cpp:82-91 | headers and payloads add up to the arena |
| `HeapBlocks.RunKeeps` | stage2/heap.cpp:93-132 | every run of malloc and free keeps tiling, separation of free blocks and the total size |
| `HeapBlocks.MallocFreeRestores` | stage2/heap.cpp:93-132 | malloc followed by free of its result gives back the exact block list |
| `HeapBlocks.FreeAllRestores` | stage2/heap.cpp:110-132 | freeing all live blocks, in any order, is allowed throughout and leaves the single initial block |
| `Heap.RunSafe` | stage2/heap.cpp:82-132 | over any run of calls and client stores the header chain in memory stays intact, and a word of a block that stays live changes only through a store to it |
| `Heap.StepKeepsGood` | stage2/heap.cpp:93-132 | one call, or one store through a live pointer, keeps the chain in memory and its meaning |
| `Heap.ReservedMemEncodes` | stage2/heap.cpp:32-46 | the header writes of a reservation encode the new block list and stay inside the block |
| `Heap.MergedMemEncodes` | stage2/heap.cpp:61-67 | rewriting one next pointer encodes the merged list and touches no live block |
| `Heap.Allocator.constructor` | stage2/heap.cpp:82-91 | one free block from the base to the end, cut to whole words |
| `Heap.Allocator.Reserve` | stage2/heap.cpp:32-46 | null exactly if the block is taken or too small; otherwise the block at its place is in use, cut to the request if a header and a word are left, with these free behind it; no live block loses a word |
| `Heap.Allocator.FindBest` | stage2/heap.cpp:98-105 | following the next pointers finds the best fit, or null if there is none |
| `Heap.Allocator.Malloc` | stage2/heap.cpp:93-108 | null, and nothing changes, exactly if nothing fits; else the earliest smallest adequate block, as the only new live block and no larger than it must be, with the rest free behind it; live blocks keep every word |
| `Heap.Allocator.TryConsolidate` | stage2/heap.cpp:61-67 | merges exactly two free neighbours |
| `Heap.Allocator.ConsolidateFirst` | stage2/heap.cpp:122-127 | a pass from the head merges the first free pair, or finds that there is none |
| `Heap.Allocator.ConsolidateAll` | stage2/heap.cpp:119-131 | restarting after each merge ends, with the fully merged list |
| `Heap.Allocator.Free` | stage2/heap.cpp:110-132 | the block is released and all free neighbours are merged; every other live block keeps header and payload |
| `FatSuper.OffsetExact` | tools/fatedit.cpp:101-104 | the computed byte offset of a cluster is its position if and only if that is below 4 GiB |
| `FatSuper.AreaWithin` | include/fs/FatSuper.h:88-95 | the data area of a described image lies inside it, and the free scan covers as many entries as it has clusters |
| `FatSuper.DescribesFits` | include/fs/FatSuper.h:88-95 | on an image below 4 GiB every cluster is found where it lies |
| `FatRaw.SetEntryTable` | tools/fatedit.cpp:110-120 | storing four bytes sets one entry of the table to the lower 28 bits of the value |
| `FatRaw.NextIsEntry` | tools/fatedit.cpp:35-46 | the lookup is the 28-bit entry, and throws exactly outside the table |
| `FatRaw.ChainNext` | tools/fatedit.cpp:35-46 | looking up a cluster of a chain gives the next one, or an end mark for the last |
| `FatRaw.CleanEntry` | include/fs/FatFs.h:221-230 | the unmasked and the masked entry are the same if and only if the top nibble is clear |
| `FatRaw.LinkEndsChain` | include/fs/FatFs.h:72 | a link for fatedit is an end mark for the loader if and only if its top nibble is set or it lies between 0x0FFFFFF0 and 0x0FFFFFF7 |
| `FatChains.ChainAcyclic` | tools/fatedit.cpp:35-46 | a chain that reaches an end mark visits no cluster twice |
| `FatChains.ChainUnique` | tools/fatedit.cpp:35-46 | the table determines the chain of a first cluster |
| `FatChains.StartChain` | tools/fatedit.cpp:87-93 | marking a free entry adds one chain to the forest and leaves all others |
| `FatChains.GrowChain` | tools/fatedit.cpp:95-99 | linking a free entry behind the last cluster grows exactly that chain |
| `FatChains.FirstFree` | tools/fatedit.cpp:149-154 | the smallest free entry below the limit, or that there is none, or that the scan leaves the table |
| `FatChains.FirstFreeIsCluster` | tools/fatedit.cpp:149-152 | the entry found is a cluster if and only if the two reserved entries are in use |
| `FatChains.FreeEntriesAre` | tools/fatedit.cpp:122-131 | the count is the number of entries that are zero |
| `FatChains.ChainFits` | tools/fatedit.cpp:133-155 | no chain is longer than the data area |
| `FatState.ScanFindsFree` | tools/fatedit.cpp:133-155 | the scan finds an entry if and only if a cluster other than the last two of the data area is free |
| `FatState.LastTwoUnused` | tools/fatedit.cpp:149-152 | with free clusters left, none is found if and only if they are the last two |
| `FatState.UsableLeft` | tools/fatedit.cpp:133-155 | a cluster can be taken if and only if the set of usable clusters is not empty |
| `FatState.UsableTaken` | tools/fatedit.cpp:87-99 | an allocation takes exactly its cluster from the usable ones, and all others stay usable |
| `Formatted.TwoFreeNoneFound` | tools/fatedit.cpp:133-155 | a volume of three clusters of which two are free and none is found |
| `Formatted.FreshFits` | tools/fatedit.cpp:701-758 | on a small fresh volume a file is packed if and only if it fits all clusters but the directory's and the last two; one byte if and only if there are four clusters or more |
| `Formatted.SixteenFiles` | tools/fatedit.cpp:616-648 | no run of pack commands puts more than sixteen files into an empty directory of 512-byte clusters, whatever is free |
| `Formatted.FreshVolume` | tools/fatedit.cpp:48-69 | a table with the reserved entries in use and a root chain of one cluster is a forest of that chain |
| `Formatted.SmallVolume` | tools/fatedit.cpp:48-69 | small volumes with an empty root directory meet all that pack commands ask for, and have the ledger of `FreshFits` |
| `Volume.Volume.constructor` | tools/fatedit.cpp:63-68 | the table in memory is the first copy on disk |
| `Volume.LoadFromImage` | tools/fatedit.cpp:48-69 | throws exactly where the info sector is outside the reserved area or the image, or its three signature words are not there; otherwise the table in memory is the first copy in the image, byte by byte, and the volume is ready for every other operation |
| `FsInfo.CountsReadBack` | include/fs/FatFsInfo.h:24-30 | both counts read back from the info sector, which stays valid |
| `Volume.Volume.ClusterFileOffset` | tools/fatedit.cpp:101-104 | the position of a cluster of the data area, inside the image |
| `Volume.Volume.Set` | tools/fatedit.cpp:110-120 | one entry becomes the lower 28 bits of the value; the update is dropped exactly outside the table |
| `Volume.Volume.FindFreeCluster` | tools/fatedit.cpp:133-155 | the first free cluster, inside data area and table; or none, or an exception, exactly when the scan says so |
| `Volume.Volume.AllocateCluster` | tools/fatedit.cpp:87-93 | the forest gets one new chain of the first free cluster; it throws, and nothing changes, exactly if no cluster but the last two is free |
| `Volume.Volume.AllocateClusterAfter` | tools/fatedit.cpp:95-99 | exactly the given chain grows by the first free cluster, all others stay, and no update is dropped; it throws exactly if no cluster but the last two is free |
| `Volume.Volume.NumFreeClusters` | tools/fatedit.cpp:122-131 | the number of free entries of the whole table |
| `Volume.Volume.WriteToImage` | tools/fatedit.cpp:71-85 | every copy of the table is in the image; the info sector is the given one, with the number of free entries in the word at 488 and the first free cluster, or 0xFFFFFFF8, in the word at 492; where the scan leaves the table it throws before the info sector |
| `FatCopies.WrittenImageMeans` | tools/fatedit.cpp:71-85 | every copy on disk is then the table, nothing from the data area on changes, and the info sector is the new or the old one |
| `FatCopies.CopiesFit` | tools/fatedit.cpp:71-78 | the copies end where the data area begins |
| `FatCopies.WrittenBackReads` | tools/fatedit.cpp:71-85 | all copies read as the table, also after the info sector is written |
| `FatContent.ContentSlice` | include/fs/FatSuper.h:88-95 | cluster i of a chain is slice i of what it stores |
| `FatContent.WriteAppends` | tools/fatedit.cpp:280-287 | a write behind the used part of the last cluster appends to the content |
| `FatAppend.OnlyChainOthers` | tools/fatedit.cpp:268-289 | writing to one chain leaves every other chain and what it stores |
| `FatAppend.ChunkAppends` | tools/fatedit.cpp:280-287 | one write appends exactly its data and changes nothing outside the chain |
| `FatAppend.ClusterAdded` | tools/fatedit.cpp:274-278 | taking another cluster leaves what was written |
| `FatAppend.ClustersLeast` | tools/fatedit.cpp:268-289 | max(1, ceil(n / cluster size)) is the least number of clusters, but at least one, with room for n bytes |
| `FatAppend.ChainMatchesClusters` | tools/fatedit.cpp:247-266 | a chain is as long as a size needs if and only if it has that number of clusters |
| `FatAppend.AppendEnds` | tools/fatedit.cpp:268-289 | an append writes everything if and only if the chain and the usable clusters of the state before have room for it, and else fills them |
| `FatKept.AppendedKeeps` | tools/fatedit.cpp:268-289 | an append, also one that throws, leaves the area in front of the data, every other chain and the first part of its own |
| `FatKept.KeptTwice` | tools/fatedit.cpp:701-758 | so does any sequence of operations |
| `FileWriter.NewFile` | tools/fatedit.cpp:240-245 | an empty file on a chain of its own, of the first free cluster; no other table entry and no byte of the image changes; it throws, and nothing changes, exactly if no cluster but the last two is free |
| `FileWriter.FindEnd` | tools/fatedit.cpp:247-266 | finds the last cluster and its used bytes if and only if the chain is exactly as long as the size needs |
| `FileWriter.OpenAt` | tools/fatedit.cpp:247-266 | succeeds if and only if the chain is exactly as long as the size needs, and then stands behind that size |
| `FileWriter.FileWriter.NextCluster` | tools/fatedit.cpp:274-278 | a full writer moves to a cluster that was free, and no table entry but this one and its predecessor changes; it throws, and nothing changes, exactly if no cluster but the last two is free |
| `FileWriter.FileWriter.WriteChunk` | tools/fatedit.cpp:280-287 | the image changes at the cursor only |
| `FileWriter.FileWriter.AppendRound` | tools/fatedit.cpp:269-288 | each round appends bytes or opens a cluster that was free; table entries outside the chain, and all other clusters, stay |
| `FileWriter.FileWriter.Append` | tools/fatedit.cpp:268-289 | terminates; appends all data if and only if the chain and the usable clusters before the call have room for it, and otherwise fills them and throws; all other chains, clusters and table entries stay; the chain has max(1, ceil(total / cluster size)) clusters |
| `FileWriter.AppendAll` | tools/fatedit.cpp:738-752 | the chunks are appended in order, all of them if and only if the chain and the usable clusters before the call have room for their total |
| `FatStream.RestIsContent` | tools/fatedit.cpp:163-230 | from the start of a chain the reader delivers its content, cut at the declared size |
| `FatStream.ChainWalkable` | tools/fatedit.cpp:214-230 | a reader of a chain never leaves the clusters of the chain, whatever the rest of the table holds |
| `FatStream.TakeSome` | tools/fatedit.cpp:169-200 | taking part of a cluster leaves the rest of the stream |
| `FatStream.NextPlaceRest` | tools/fatedit.cpp:214-230 | moving on to the next cluster keeps what is still to come |
| `FileReader.FileReader.ReadChunk` | tools/fatedit.cpp:183-188 | the bytes at the reader's place in its cluster |
| `FileReader.FileReader.Read` | tools/fatedit.cpp:169-200 | terminates, also on a cyclic table; delivers the next bytes of the stream, as many as asked for or left |
| `FileReader.FileReader.ReadPieces` | tools/fatedit.cpp:169-200 | whatever the request sizes, the pieces are consecutive and add up to the stream |
| `ShortName.IsShortName` | include/fs/FatName.h:34-67 | accepts exactly the grammar of 8.3 names |
| `ShortName.NameChars` | include/fs/FatName.h:10-32 | which characters a short name may have: one by one, and no others |
| `ShortName.NameLengths` | include/fs/FatName.h:34-67 | of these characters, one to eight are a name, and one to eight, a dot and one to three |
| `ShortName.SetField` | include/types/FixedLengthString.h:25-33 | the value, cut or padded to the field |
| `ShortName.NameToString` | include/fs/FatDirent.h:83-107 | the loops leave the trimmed base, a dot and the trimmed extension in the buffer, with a NUL behind them, and write no byte behind `BufferUse`; nothing where the name starts with a space |
| `ShortName.NameBuffer` | tools/fatedit.cpp:403-404 | twelve bytes are enough if and only if the base has fewer than eight characters or the extension fewer than three; thirteen always are |
| `ShortName.NameRoundTrip` | include/fs/FatDirent.h:75-107 | a short name comes back from the padded form if and only if neither part starts or ends with a space |
| `ShortName.EncodingInjective` | tools/fatedit.cpp:622-631 | different surviving names have different eleven bytes |
| `Dirent.RecordFields` | include/fs/FatDirent.h:27-37 | name, flags, cluster index and size read back from a new record |
| `Dirent.RecordBytes` | include/fs/FatDirent.h:109-120 | which byte of a new record holds what: name, directory bit, both halves of the cluster, size, and zeros |
| `Dirent.FlagBits` | include/fs/FatDirent.h:16-24 | a record with all four low flag bits is part of a long name, and one with the bit 0x10 a directory |
| `Dirent.RecordsConcat` | tools/fatedit.cpp:317-327 | records can be taken apart at record boundaries |
| `Dirent.RoundLocal` | tools/fatedit.cpp:317-432 | what one round of the scan finds depends on the records it takes only |
| `Dirent.ScanAppend` | tools/fatedit.cpp:310-436 | replacing what follows the end of a directory makes the scan go on there with what it had |
| `Dirent.RoundsNew` | tools/fatedit.cpp:616-648 | a new record and an end mark add exactly the new entry if and only if the name survives |
| `Dirent.RoundsRead` | tools/fatedit.cpp:317-432 | a new record and an end mark add one entry, under the name that is read back; if none is, the scan fails |
| `Directory.ReadRecord` | tools/fatedit.cpp:321-327 | takes one record off the directory, or says how much was overread at its end |
| `Directory.ReadParts` | tools/fatedit.cpp:353-370 | reads all parts of a long name, or fails exactly at a missing or misplaced one |
| `Directory.PartsInOrder` | tools/fatedit.cpp:373-381 | accepts exactly parts numbered in order with one checksum |
| `Directory.JoinTexts` | tools/fatedit.cpp:418-429 | the long name in reading order, or failure at an empty part |
| `Directory.ReadName` | tools/fatedit.cpp:403-413 | the characters up to the first NUL of the buffer, or failure where the record has no name |
| `Directory.ReadEntry` | tools/fatedit.cpp:337-431 | the entry that starts with a record, and how many records it takes, with a name buffer of thirteen bytes where the code has twelve |
| `Directory.ScanDirectory` | tools/fatedit.cpp:310-436 | terminates with the listing of the remaining records and the bytes in use, or fails exactly at a malformed entry, with the same larger buffer |
| `LongNames.OneByteSum` | include/fs/FatDirent.h:55-65 | the checksum of a name with a single byte c in place i is c with its lowest (10 - i) mod 8 bits moved to the top |
| `LongNames.SumAdds` | include/fs/FatDirent.h:55-65 | one more byte adds to what a NUL would give |
| `LongNames.SumRotates` | include/fs/FatDirent.h:55-65 | NULs rotate the sum to the right, one place each |
| `LongNames.ReadmeSum` | include/fs/FatDirent.h:55-65 | the checksum of README.TXT is 0x73 |
| `LongNames.PartTextIs` | include/fs/FatDirentLong.h:30-48 | the text of a part, as it is laid out on disk, reads back up to its end, with a question mark for each character that is not printable ASCII |
| `LongNames.LongGroupRound` | tools/fatedit.cpp:337-431 | the parts of any long name, in order in front of a short record, are read as exactly the entry with the long name if and only if they carry the checksum of the short one, and else as a failure |
| `LongNames.LongGroupOnly` | tools/fatedit.cpp:337-431 | nothing else is read: an entry with a long name needs parts numbered downwards, with the last one marked and no other, the checksum in each, and a short record with a name behind them |
| `LongNames.LongGroupListed` | tools/fatedit.cpp:310-436 | at the end of a directory the scan lists exactly that entry, or fails |
| `DirectoryEdit.EntryListed` | tools/fatedit.cpp:616-648 | after the record and end mark were stored the scan yields the old entries plus exactly the new one, if and only if the name survives |
| `DirectoryEdit.SetNames` | tools/fatedit.cpp:622-631 | the name field, split at the first dot |
| `DirectoryEdit.AppendDirectoryEntry` | tools/fatedit.cpp:616-648 | stores record and end mark behind the used part, also across clusters, if and only if the chain is as long as the used part needs and it and the usable clusters before the call have room for both; in any case all other chains, clusters and table entries stay, and what the directory held |
| `DirectoryEdit.ListDirectory` | tools/fatedit.cpp:650-657 | scanning with an unlimited size lists the whole chain |
| `DirectoryEdit.CheckEntryNotInDir` | tools/fatedit.cpp:650-667 | true exactly if the directory can be listed and no entry has the name, long or short |
| `DirectoryEdit.AddAndList` | tools/fatedit.cpp:616-667 | an entry is added if and only if the directory can be listed and has, before the call, room and the right length; listing it then gives the old list plus exactly the new entry if and only if the name survives |
| `DirectoryEdit.NextMatches` | tools/fatedit.cpp:251-263 | the chain matches its size for the next append if and only if the last entry did not end with its cluster |
| `LoaderSpec.EntryPlace` | include/fs/FatFs.h:221-223 | table sector and offset of an entry, with the product cut to 32 bits |
| `LoaderSpec.FailedLoad` | include/fs/FatFs.h:195-202 | after a load that failed behind i sectors the windows are right if and only if nothing was cached, or both clusters start with the same i sectors on disk |
| `Loader.FatFs.constructor` | include/fs/FatFs.h:30-37 | both windows start out empty |
| `Loader.FatFs.LoadDataCluster` | include/fs/FatFs.h:186-204 | the window holds the cluster on disk; on failure its index is old and its head holds the sectors that were loaded |
| `Loader.FatFs.FillWindow` | include/fs/FatFs.h:195-200 | the sectors loaded so far lie at the start of the window |
| `Loader.FatFs.LoadFatSector` | include/fs/FatFs.h:206-219 | the window holds the table sector on disk, or is unchanged |
| `Loader.FatFs.ReadFatIndex` | include/fs/FatFs.h:221-230 | the entry on disk, whatever was cached |
| `Loader.FatFs.ReadRound` | include/fs/FatFs.h:72-97 | one round delivers the first piece of the read without windows |
| `Loader.FatFs.ReadAt` | include/fs/FatFs.h:59-100 | whatever was cached, the bytes are those of following the chain on disk, and the result is their number, as a signed 32-bit one; -1 without a failed load only where that fails too |
| `Lookup.LookupAgrees` | include/fs/FatFs.h:129-147 | for every short name the loader finds the first entry fatedit lists under it, or both find none, up to an entry with an empty name |
| `Lookup.PrefixAgrees` | include/fs/FatFs.h:129-147 | what the listing has is decided by the records in use, whatever follows them |
| `LoaderFind.SearchWindow` | include/fs/FatFs.h:126-147 | the loop over the window finds the first matching record or the end mark |
| `LoaderFind.LookUpStable` | include/fs/FatFs.h:110-151 | a lookup that some number of clusters decides does not change with more |
| `LoaderFind.LocatedSays` | include/fs/FatFs.h:129-147 | a file that was found has the cluster, size and flags that stand in a short record of that name, or in one without a name while the buffer held the name |
| `LoaderFind.FindInDirectory` | include/fs/FatFs.h:110-151 | a name that is no short one and then a file that is no directory are refused, each with its own code; else the result of the lookup without windows, with the same error, whatever was cached; `LoaderLoops` says which lookups have one |
| `Paths.SplitPath` | tools/util.h:27-55 | the components of a path |
| `Paths.SeparatorSplits` | tools/util.h:27-55 | a slash or a backslash splits a path into the components of both sides |
| `Paths.ComponentsAre` | tools/util.h:27-55 | components are not empty and hold neither a slash nor a backslash |
| `Paths.SingleComponent` | tools/util.h:27-55 | a string without separators is its own component |
| `LoaderPath.CopyComponent` | include/fs/FatFs.h:163-172 | the first component, or that it is longer than twelve characters |
| `LoaderPath.FindByPath` | include/fs/FatFs.h:153-180 | looking up the components of the same path one by one, with early exit and the same error code; `LoaderLoops` says which paths have a result |
| `LoaderPath.RootOnly` | include/fs/FatFs.h:153-180 | a path without components leads to the root directory of the super block |
| `LoaderLoops.AlwaysEndless` | include/fs/FatFs.h:110-151 | whatever the name buffer holds the lookup never ends, if and only if its cluster lies in a set of readable clusters that no link leads out of, in which every record is long, deleted, or named otherwise |
| `LoaderLoops.SometimesEndless` | include/fs/FatFs.h:110-151 | for some contents of the buffer it never ends, if and only if there is such a set in which short records may also have no name; on every other disk all lookups end |
| `LoaderLoops.LookInEndsIf` | include/fs/FatFs.h:110-151 | with the checks in front of it a lookup ends unless the name is a short one, the file a directory, and its cluster one from which the search goes on for ever |
| `LoaderLoops.WalkDecided` | include/fs/FatFs.h:153-180 | the walk along a path ends if and only if, as long as components are found, every lookup does |
| `Agreement.ClusterAgrees` | include/fs/FatFs.h:186-204 | the loader finds a cluster where fatedit put it |
| `Agreement.EntryAgrees` | include/fs/FatFs.h:221-230 | the loader reads the entry fatedit stored |
| `Agreement.FatIndexIs` | include/fs/FatFs.h:206-230 | the loader reads the four bytes of entry c in the first copy of the table, and fails exactly if the table or the disk ends before that sector |
| `Agreement.SectorsOnDisk` | include/fs/FatFs.h:186-204 | sectors can be loaded if and only if the disk has them all |
| `Agreement.ReadMirrored` | include/fs/FatFs.h:59-100 | from any cluster of a chain a read returns the matching slice of its content |
| `Agreement.LoaderReadsFile` | include/fs/FatFs.h:59-100 | a non-empty stored file is read back exactly, for every offset and length |
| `Agreement.EmptyFileReadsGarbage` | include/fs/FatFs.h:61-67 | a read of an empty file returns nothing if and only if it asks for nothing or starts behind the chain |
| `FindAgreement.FindMirrored` | include/fs/FatFs.h:110-151 | from any cluster of a directory the lookup finds what a search of the remaining bytes finds |
| `FindAgreement.LoaderFindsListed` | include/fs/FatFs.h:110-151 | on a directory fatedit can list, the loader finds the first entry of a short name with its cluster, size and kind, and nothing if there is none |
| `FindAgreement.LoaderFindsKept` | include/fs/FatFs.h:110-151 | as long as the records in use stand at its start, the loader finds in a directory what fatedit listed in it, whatever follows |
| `EndToEnd.FinishImage` | tools/fatedit.cpp:71-85 | the tables are on disk even if the info sector could not be updated |
| `EndToEnd.ChainWrittenBack` | tools/fatedit.cpp:71-85 | after writing back, a chain is on disk for the loader, with what it stored |
| `EndToEnd.WriteFile` | tools/fatedit.cpp:738-752 | a new chain of exactly the clusters needed holds the chunks, if and only if that many were usable before the call; every old chain is as it was, also after an exception |
| `EndToEnd.PackAndRead` | tools/fatedit.cpp:238-308 | all chunks are packed if and only if the usable clusters before the call have room for their total; read by the loader from their first cluster, they give the matching slice for every offset and length, and its length as result |
| `PackCommand.PackFile` | tools/fatedit.cpp:701-758 | refuses, and changes nothing, exactly for a name that is not short or not new; otherwise packs if and only if, before the call, the directory chain matches its size and there are usable clusters for the file and for two more records, and else throws; no old file or directory loses anything; a packed file holds the chunks, the directory its record, the clusters taken are exactly those needed, and every other chain is as it was |
| `PackCommand.NewEntryFound` | include/fs/FatFs.h:110-151 | the loader finds the new name, with the file's cluster and size, exactly if no listed entry has an empty name |
| `PackCommand.PackAndBoot` | tools/fatedit.cpp:701-758 | pack, write back, look up by name and read: with the same exact conditions for refusing, packing and throwing, the loader returns the matching slice of the chunks, and its length |
| `PackLedger.FateIs` | tools/fatedit.cpp:701-758 | the ledger of a state tells exactly whether a command is refused, packs or throws |
| `PackLedger.LedgerPacked` | tools/fatedit.cpp:701-758 | after a file was packed the ledger has exactly the clusters taken less, and the name that is read back more |
| `PackLedger.PacksEnd` | tools/fatedit.cpp:247-266 | whatever run of commands follows, once the records in use fit q clusters without filling them, no more than fit these are ever packed |
| `PackRun.HoldingMore` | tools/fatedit.cpp:701-758 | packing one more file keeps all earlier ones in the directory, with their data, even where the new name makes the directory unreadable for fatedit; the new one is added if its name survives |
| `PackRun.PackedListing` | tools/fatedit.cpp:310-436 | after packing, the listing has one entry more under the name that is read back; without one the directory cannot be listed, but starts with the same records |
| `PackRun.StoredBoots` | include/fs/FatFs.h:110-151 | a file listed in the records in use is found and read back by the loader whatever follows these records |
| `PackRun.HeldBoots` | include/fs/FatFs.h:110-151 | after writing back, the loader finds every file kept in the directory by name and reads it back for every offset and length |
| `PackRun.KeptBoots` | tools/fatedit.cpp:821-822 | with the old tables still on disk, the loader finds and reads every file that was there before the run |
| `PackRun.StepFate` | tools/fatedit.cpp:701-758 | every step comes to what the ledger of the state before says, and leaves the ledger it says |
| `PackRun.PackAll` | tools/fatedit.cpp:701-758 | over any run of pack commands the ledger before the run foretells the kind of every result; every file packed so far under a name that survives and every one there before is in the directory; an exception loses nothing that was there before |
| `PackRun.Session` | tools/fatedit.cpp:701-758 | the ledger before the session foretells every result, hence whether an exception ends it; if none does, the loader finds and reads back every file packed under a name that survives and every one there before; if one does, it still finds and reads every one there before |
| `Multiboot.ChecksumMeaning` | include/kernel/MultiBootHeader.h:25-28 | the check says that magic, flags and checksum add up to zero |
| `Multiboot.LayoutMeaning` | include/kernel/MultiBootHeader.h:34-73 | accepted exactly for addresses in order and enough file; the bytes then start at the place in the file that puts the header at its declared address |
| `Multiboot.HeaderChecked` | stage2/stage2.cpp:99-104 | with the checked words in the file, the check tells whether the file has a header there |
| `Multiboot.ShortHeader` | stage2/stage2.cpp:99-104 | whatever memory held before, the check can be trusted if and only if the header is not cut off |
| `KernelFile.ReadKernel` | include/fs/FatFs.h:59-100 | one read of a served file; it fails only with a failed load |
| `KernelStored.StoredFileServes` | include/fs/FatFs.h:59-100 | a file that fatedit stored is served to the kernel loader |
| `HeaderSearch.ScanChunk` | stage2/stage2.cpp:95-110 | one chunk, with the loop bound replaced at each hit: the first header, or none up to where the search goes on |
| `HeaderSearch.MBFindHeader` | stage2/stage2.cpp:78-116 | terminates; in a complete file the offset is the first multiple of four with a header, and a failure means none starts in the searched part |
| `MemoryCopy.CopyMemory32` | lib/pm86/copy.cpp:11-29 | the destination is the old source, also when they overlap, and nothing else changes |
| `MemoryCopy.ClearMemory32` | lib/pm86/copy.cpp:31-37 | exactly the given bytes are zero |
| `KernelLoad.CopiedIs` | stage2/stage2.cpp:143-155 | the copied length in closed form: rounded up to chunks and cut at the end of the file |
| `KernelLoad.CopiedExactly` | stage2/stage2.cpp:143-155 | for every file start, the exact condition for copying `count` bytes |
| `KernelLoad.CopiedFromStart` | stage2/stage2.cpp:143-155 | for a kernel at the start of its file: a multiple of 1024, or the file size |
| `KernelLoad.LoadExact` | stage2/stage2.cpp:143-160 | for all files and memories the result is the intended one if and only if exactly `count` bytes are copied |
| `KernelLoad.CopyChunks` | stage2/stage2.cpp:143-155 | the copied bytes lie at the load address; only they and the buffer changed |
| `KernelLoad.MBLoadKernel` | stage2/stage2.cpp:118-162 | by the addresses of the header: memory holds the copied bytes from loadAddr on, behind them as many zeros as lie between loadEndAddr and bssEndAddr, and all else but the buffer as it was; without a failed load it fails exactly where the addresses are not in order |
| `KernelLoad.KernelInPlace` | stage2/stage2.cpp:118-162 | with the right length copied, text and data lie from load to load end and zeros from there to BSS end, and no other byte but those of the buffer changes |
| `KernelBoot.CmdMultiboot` | stage2/stage2.cpp:228-263 | by the words of the file: the kernel whose header comes first in the file the path leads to is in memory, and the entry is the one it names; or the path leads nowhere, the file cannot be loaded, or a load failed |
| `KernelBoot.HeaderWords` | include/kernel/MultiBootHeader.h:79-87 | which word of the file is which field of the header |
| `KernelBoot.UnsuitableMeans` | stage2/stage2.cpp:78-262 | a file with a header cannot be loaded if and only if its first header lies behind 8 KiB, wants a video mode, has no layout, or has addresses out of order |
| `KernelBoot.BootedInPlace` | stage2/stage2.cpp:228-263 | if the right length was copied, memory holds text, data and BSS as the words of the file say, and is otherwise unchanged outside the buffer |
| `BootChain.PathLeads` | include/fs/FatFs.h:153-180 | the path of a file in the root directory leads to what was packed under that name |
| `BootChain.PackAndLoadKernel` | stage2/stage2.cpp:228-263 | a kernel packed into the root directory, among any other files, is loaded by its name, unless it is none that can be loaded; the ledger before tells which sessions end without an exception and what is packed |
| `Script.ParseMeaning` | stage2/stage2.cpp:289-306 | a line parses to a call if and only if the grammar derives it |
| `ScriptText.CommandChars` | include/StringUtil.h:28-32 | a single character and a blank is a call exactly for letters and digits |
| `ScriptText.BlankChars` | include/StringUtil.h:23-26 | exactly a blank or a tab separates a command from its argument |
| `ScriptText.PrintedParses` | stage2/stage2.cpp:275-306 | calls that are written down, one to a line, are parsed to the same calls |
| `ScriptText.KnownCommands` | stage2/stage2.cpp:266-273 | the known commands are echo, info and multiboot |
| `Script.CallsConcat` | stage2/stage2.cpp:277-286 | lines are parsed on their own |
| `Script.DispatchedPrefix` | stage2/stage2.cpp:308-324 | what was dispatched is a prefix of the calls that ends with the first failing one or in front of the first unknown one |
| `Script.SplitLine` | stage2/stage2.cpp:288-306 | the in-place split yields the call of the line and writes one NUL |
| `Script.StrEqual` | include/StringUtil.h:10-21 | true exactly for equal strings |
| `Script.RunNext` | stage2/stage2.cpp:276-325 | one line is dispatched; NULs are written inside it and at its newline only |
| `Script.RunScript` | stage2/stage2.cpp:275-326 | terminates, dispatches exactly the calls of the line-by-line parse up to the first failing or unknown one, and writes nothing behind the text |
| `DiskGeometry.FieldsIndependent` | include/part/CHSPacked.h:14-37 | setting one packed field leaves the others and keeps the bits that fit |
| `DiskGeometry.RegistersDecode` | include/BIOS/BiosDisk.h:29-34 | the BIOS reads the packed address and the drive back from CX and DX |
| `DiskGeometry.AddressRoundTrip` | include/BIOS/BiosDisk.h:51-60 | the BIOS is asked for the given sector if and only if it lies below cylinder 1024 |
| `DiskGeometry.AddressesDistinct` | include/BIOS/BiosDisk.h:29-60 | on a legal drive different sectors have different register contents |
| `DiskGeometry.ParametersLegal` | include/BIOS/BiosDisk.h:75-77 | the decoded geometry is legal if and only if the reported track is not empty |
| `Stage2.Stage2Header.SetSectorCount` | include/Stage2Header.h:21-26 | sectors rounded up, in 16 bits; the rest of the image stays |
| `Stage2.Stage2Header.ComputeChecksum` | include/Stage2Header.h:37-46 | the sum of all covered words in 32 bits |
| `Stage2.Stage2Header.UpdateChecksum` | include/Stage2Header.h:32-35 | the sum becomes zero, and the checksum is zero exactly if the sum was |
| `Stage2.Stage2Header.Verify` | include/Stage2Header.h:48-56 | magic, sector count within the limit, checksum not zero, sum zero; the words are read only within the limit |
| `Stage2.TamperDetected` | include/Stage2Header.h:37-56 | changing any covered word other than the one with the sector count makes the check fail |
| `Stage2.DriveChangeDetected` | include/Stage2Header.h:37-56 | so does changing the boot drive beside the sector count |
| `Stage2.Install` | tools/installfat.cpp:140-148 | an image of whole sectors is accepted if and only if the count is not zero and the words do not add up to zero; the magic word and the count are then in the image, the partition entry is empty and the rest is as it was |
| `Stage2.SumInBuffer` | include/Stage2Header.h:37-46 | the words summed lie inside the buffer if and only if the image is whole sectors, or so long that its count wraps |
| `Stage2.VbrAccepts` | vbr/vbr.cpp:26-49 | an installed image boots if and only if it has at most 30 sectors and fits the reserved ones, behind two others |
| `Surprises.HugeRequestGranted` | stage2/heap.cpp:95-96 | a request of 0xFFFFFFFD bytes gets an empty block |
| `Surprises.FarClusterLost` | tools/fatedit.cpp:101-104 | a cluster at 4 GiB is sought at offset 0 |
| `Surprises.ReservedEntryTaken` | tools/fatedit.cpp:149-152 | a free entry 0 is handed out |
| `Surprises.TopBitEndsChain` | include/fs/FatFs.h:72 | an entry that is a link for fatedit and an end for the loader |
| `Surprises.EarlyStop` | include/fs/FatFs.h:72 | entry 0x0FFFFFF0 is a link for fatedit and an end for the loader |
| `Surprises.SixteenthEntry` | tools/fatedit.cpp:251-263 | a chain that no longer matches its size after sixteen entries |
| `Surprises.SpaceInFront` | include/fs/FatName.h:10-13 | a short name that comes back as none |
| `Surprises.TwelveCharacters` | tools/fatedit.cpp:403-404 | KERNEL01.BIN needs thirteen bytes |
| `Surprises.EmptyFileHasByte` | include/fs/FatFs.h:61 | a byte is read from an empty file |
| `Surprises.LookupWithoutEnd` | include/fs/FatFs.h:110-151 | a disk whose directory leads back to itself, on which no lookup of any name ends |
| `Surprises.PartialLoad` | include/fs/FatFs.h:195-202 | a disk and a load after which a window lies about its cluster |
| `Surprises.EndMarkListed` | tools/fatedit.cpp:383-413 | an end mark behind a long name that fatedit lists and at which the loader stops |
| `Surprises.WrongCounts` | stage2/stage2.cpp:143 | kernels of which too much, the rest of the file, or nothing is copied |
| `Surprises.BssInsideText` | include/kernel/MultiBootHeader.h:45-47 | a layout with the end of the BSS inside the text is accepted |
| `Surprises.CylinderWraps` | include/part/CHSPacked.h:30-37 | the first sector of cylinder 1024 is read from cylinder 0 |
| `Surprises.ZeroSumImage` | include/Stage2Header.h:48-56 | a sector that cannot be installed |
| `Surprises.ThirtyOneSectors` | vbr/vbr.cpp:26-49 | an installed image that does not boot |

## Left out

- Inline assembly, linker scripts, A20, PS/2, BIOS calls: hardware behaviour; `LoadSector` reads an immutable disk and may fail.
- Screens, console messages, command-line parsing and the command loop of the tools: user interface.
- `FindFile`, `FindParent`, `DumpFile`, `InitializeEmptyDirectory`, `CreateDirectory` and the `dir` command of fatedit: they compose the members above; `FindFile` walks paths as `FindByPath` does.
- `MultiBootInfo`, the memory map, `MBRTable`, `CmdInfo`, `CmdEcho`, `MBTrampoline`: fixed-layout bookkeeping and printing.
- `FatSuper` setters, boot code, OEM name, labels and timestamps: nothing modelled depends on them; the super block is a value whose getters are evaluated once.
- `CHSPacked` and `DriveGeometry` setters: values instead of update in place, since each is filled once and then only read.
- Heap.Allocator.constructor: requires a word-aligned base and room for one header, which the code takes for granted.
- Volume.LoadFromImage: requires a super block that describes a volume inside the image, below 4 GiB and with a table; the code reads what it is given.
- Directory.ReadEntry: has a name buffer of thirteen bytes where the code has twelve; what a NUL behind the buffer overwrites is not modelled. `ShortName.NameBuffer` says for which names that is.
- Directory.ScanDirectory: the same, since it calls ReadEntry.
- Loader.FatFs.LoadDataCluster: a failed sector load leaves its part of the window unchanged.
- LoaderFind.FindInDirectory: requires a lookup that ends, since the code does not terminate on others; `LoaderLoops.AlwaysEndless` and `LoaderLoops.SometimesEndless` say on which disks that is.
- LoaderPath.FindByPath: requires the same of every lookup on the path; `LoaderLoops.WalkDecided` says when that is.
- HeaderSearch.MBFindHeader: states nothing about files with an aligned magic word that is cut off, beyond termination; `Multiboot.ShortHeader` says why.
- KernelLoad.CopyChunks: requires the target to exist in memory and to be apart from the transfer buffer, which the code does not check.
- KernelLoad.MBLoadKernel: requires the target to exist in memory and to be apart from the transfer buffer, which the code does not check; allocation of that buffer is not modelled.
- Script.RunScript: the commands themselves are a function from what was dispatched before and the call to success.
- Stage2.Install: requires whole sectors; for others the code sums words behind the end of its buffer, exactly as `Stage2.SumInBuffer` says.
- PackRun.Session: what the command `pack` does before the file is written (finding the parent directory by its path) is not part of it; all files go into one directory.
- Writing the super block and its backup when fatedit ends: the super block is never changed by the commands modelled.
