# orionOS kernel: verified model

This project models seven parts of the orionOS x86 kernel in Dafny and proves what they keep over
whole runs:

- **FAT16 volume engine** (`Fat*.dfy`): the on-disk table and its copies, cluster chains, the
  next-fit allocator, release, overwrite and reading, long file names, lookup, formatting, mounting, and
  runs of create, mkdir, write and remove in the root directory and in a tree of directories that grow.
  The format is that of the Microsoft FAT specification v1.03, sections "FAT Directory Structure" and
  "FAT Long Directory Entries".
- **Kernel heap** (`Heap*.dfy`): first-fit blocks with headers in the managed memory, aligned carving,
  growth by pages, joining on free.
- **HD Audio** (`Hda*.dfy`): connection lists and the search for a converter that programs selectors
  (Intel HD Audio specification rev 1.0a, sections 7.3.3.2 and 7.3.3.3), the choice of the output pin,
  and the streaming resampler.
- **ELF loader** (`Elf*.dfy`): segment layout, the base allocator, and i386 relocations (System V ABI,
  Intel386 supplement, chapter 4 "Relocation").
- **Disk rescan protocol** (`Rescan.dfy`): requesters and worker interleaving over two flags.
- **GUI window manager** (`Gui*.dfy`): slots, z-order, focus, clamping and hit-testing.
- **Physical page allocator** (`Pmm*.dfy`): bitmap and byte count.

Each part has a layer of pure functions on values, with the theorems, and, where the source works in
place, classes and methods over sectors, words, arrays or bitmaps that are proved against that layer.
What the functions mean is told apart from their definitions, on bytes, addresses and coordinates, in
`FatChecksum`, `FatShown`, `FatMount`, `HeapLaw`, `HdaSound`, `ElfLaw` and `GuiLaw`.
`dafny verify dfyconfig.toml` checks the project.

## Reading guide

The main theorems are these.

| part | theorem | in words |
|---|---|---|
| FAT16 | `FatRuns.RunsStayGood` | every run of creates, mkdirs, writes and removes, failing ones included, keeps all chains whole and disjoint, short names distinct, never-used slots last |
| FAT16 | `FatTreeRuns.TreeRunsStayGood`, `WriteInMeans` | the same in a tree of directories, which may grow: every chain of every directory, and a write in one directory keeps every other file of all of them |
| FAT16 | `FatDirEngine.Fat16CreateIn` | the create over the sectors of a directory's cluster chain, growth included, is the create on the tree |
| FAT16 | `FatRuns.FileAfterMeans`, `FailedItemMeans` | a write that runs out of space too leaves every other file as it was |
| FAT16 | `FatRuns.WriteFileMeans` | after a write the name is found, its file reads back as written, every other file as before |
| FAT16 | `FatLookup.CreatedIsFound`, `UnfoundNeverWritten` | a created name is found again if and only if it needs no long entry, or preparation does not change it and it has at most 247 characters, all 7-bit; no write under any other name succeeds |
| FAT16 | `FatChecksum.LongNameAttached` | an entry of the listing has a long name iff the slots in front of it are a whole name, whoever wrote it, that carries the rotating sum of its short name |
| FAT16 | `FatShown.CreatedShown` | a created file is listed under the very name given, case included, iff the name needs a long entry or no left-over fragments claim its slot |
| FAT16 | `FatMount.ProbeMeans`, `RegionsPartition` | which boot sectors are mounted, told on their bytes, and that reserved sectors, tables, root and data are the whole volume |
| FAT16 | `FatBacking.RunsStayBacked`, `FatChains.SafeExactly` | on a disk shorter than its table, when the clusters handed out exist, and that runs stay on them |
| FAT16 | `FatFormat.ProbeFormatted`, `FormatAndMount` | a formatted disk is mounted again, with the layout written, if and only if it has from 16405 to 262644 sectors; the volume is then valid, good and empty |
| FAT16 | `FatFiles.OverwriteConserves` | an overwrite succeeds iff old chain and free clusters suffice, and conserves clusters |
| FAT16 | `FatChains.VisitReachable` | release visits exactly the reachable clusters, on cyclic tables too |
| heap | `HeapRuns.RunsStayOwned`, `HeapWidth.WordRunsStayOwned` | in every run the blocks held are in the list, in the heap, and apart; with 32-bit sums, in every run of requests up to 64 MB |
| heap | `HeapWidth.AllocWordExact`, `WrapIsShort` | the 32-bit request is the one meant iff no sum wraps past a test; otherwise the caller gets too few bytes |
| heap | `HeapLaw.DeniedExactly`, `GrantedMeans` | which request is denied, and where a granted block lies, told in addresses |
| heap | `HeapTiles.AllocTiled`, `RunsStayTiled`, `FreeUndoesAlloc` | when the list tiles the heap, and that freeing undoes allocating |
| heap | `HeapMemory.KernelHeap.KmallocAligned`, `Kfree` | the word-level code refines the list and writes no held payload |
| audio | `HdaRoute.SearchDecides` | the search succeeds iff a route exists, and leaves its selectors set |
| audio | `HdaResample.Player.Drain`, `HdaSound.OutNear`, `StereoDelivered` | the buffers together are the one-pass result; each side blends its own channel to within rounding, and at 48 kHz the file is delivered as it is |
| ELF | `ElfLaw.ApplyLaw`, `RelocationLaw` | the relocation loop told on the bytes of the image: each word named gets its sum modulo 2^32, one after the other, up to the first relocation that cannot be carried out |
| ELF | `ElfImage.RelocateIndependent` | relocation depends on the base through moving words only |
| ELF | `ElfLoad.RunsApart`, `Loader.LoadImage`, `ElfHeap.LoadOverruns` | assigned ranges are apart; when a load succeeds and what it delivers; it overruns its buffer iff the heap's sums wrap for it |
| rescan | `Rescan.ScansNeverOverlap`, `EveryRequestServed`, `QuietMeansServed` | one token of work; a scan begins within three steps of every request, unless the queue refused |
| GUI | `GuiLaw.ClickMeans`, `CreateMeans`, `CloseMeans` | what a click and each message does to every window, in coordinates |
| GUI | `GuiDesk.RunsStayTidy`, `RunsStayInside` | z-order, focus, ownership and work area over every event sequence |
| pages | `PmmPages.RunsKeep`, `RunsExact` | no page twice, none reserved, none lost, byte count in step |

Where a property is false of the code, the project keeps the code, gives an input and proves the exact
condition:

| property | exact condition | failing input |
|---|---|---|
| a range read ends at the file's end | `FatFiles.RangeExact`, `FatVolume.ReadersAgree` | `FatFiles.RangeOverrun` |
| a created name is found again | `FatDir.LongNameRoundTrip`, `FatLookup.CreatedIsFound` | `FatLookup.TrailingDotLost`, `LongNameNeverWritten` |
| a created file is listed under its name | `FatShown.CreatedShown` | `FatShown.LeftOverRenames` |
| an unused alias exists (`snprintf` has no `%u`) | `FatRoot.GenerateExact` | `FatRoot.SixthAliasFails` |
| every cluster handed out is on the disk | `FatDisk.AllBackedExactly`, `FatChains.SafeExactly` | `FatFormat.FormatLeavesUnbacked` |
| a formatted volume is mounted again | `FatFormat.ProbeFormatted`, `MountableExactly` | `FatFormat.SmallVolumeRefused` |
| the copies of the table agree | `FatFormat.FormattedAgrees` | entries 0 and 1 of every formatted disk |
| an entry created in a directory that grows is found | `FatTreeRuns.CreateExact`, `FatGrowth.GrowthExact` | `FatGrowth.CrowdedHides` |
| a created file has clusters for its size | `FatRuns.CreateCountExact` | `FatRuns.HugeCreateGetsOne` |
| aligned requests keep the tiling of the heap | `HeapTiles.AllocTiled` | `HeapTiles.AlignmentLosesBytes` |
| a granted block has the bytes asked for | `HeapWidth.AllocWordExact`, `FitExact`, `GrowExact`, `Align4Exact` | `HeapWidth.WideRequestGranted`, `TooLargeFits` |
| an image fits its buffer | `ElfHeap.LoadOverruns` | `ElfHeap.HugeSegmentOverruns` |
| the alignment loop ends | `HeapWidth.NormalizeReturns` | alignments above 2^31 |
| sample reads are in bounds | `HdaResample.CoveredExactly` | `HdaResample.SampleOutside` |
| every rescan request is served | `Rescan.EveryRequestServed`, `QuietMeansServed` | `Rescan.UndoLosesRequest`, `RefusalLosesRequests` |
| window edges stay in range | `GuiDesk.ClampExact` | `GuiDesk.ClampOverflows` |
| a reserved region is covered | `PmmBitmap.RegionExact` | `PmmBitmap.LastPageNotReserved` |

## Model

| member | source | states |
|---|---|---|
| FatDisk.FatLbaDistinct | fs/fat16.c:1258-1304 | two entries share a table sector iff they are in the same copy and the same group of 256 |
| FatDisk.ClusterLbaDistinct | fs/fat16.c:1887-1889 | the sectors of different clusters do not overlap |
| FatDisk.BackedExactly | fs/fat16.c:1887-1889 | a cluster of the table lies on a disk of so many sectors iff it is below the limit computed from the geometry |
| FatDisk.AllBackedExactly | fs/fat16.c:390-410 | every cluster the allocator can return lies on the volume iff the table is no larger than the data region |
| FatDisk.EntryWrite | fs/fat16.c:1293-1304 | one read-modify-write changes one entry of one copy and no other entry |
| FatDisk.TableBytes | fs/fat16.c:1258-1267 | entry c of a table is the word at byte 2c of the copy, low byte first |
| FatDirEngine.RootBytes | fs/fat16.c:800-811 | slot i of the root is the 32 bytes at byte 32i of its sectors |
| FatDisk.ClusterWrite | fs/fat16.c:1276-1291 | writing inside a cluster changes that cluster alone: not the table, the root or another cluster |
| FatDisk.SlotWrite | fs/fat16.c:775-781 | writing a root slot changes that slot alone, and neither table nor data |
| FatVolume.Volume.constructor | fs/fat16.c:186-204 | a volume mounted with a layout starts with the hint at 2; the copies of the table may differ, and the entries on which they agree are recorded |
| FatVolume.Volume.GetFatEntry | fs/fat16.c:1258-1267 | returns the entry of the table view |
| FatVolume.Volume.SetFatEntry | fs/fat16.c:1293-1304 | changes that entry in all copies, which then agree on it, makes no copies differ, and touches nothing else |
| FatVolume.Volume.ScanFree | fs/fat16.c:390-410 | the first zero entry of a range, or its end |
| FatVolume.Volume.AllocCluster | fs/fat16.c:390-410 | takes the next-fit cluster, marks it end-of-chain and moves the hint past it, or changes nothing |
| FatChains.NextFitExhaustive | fs/fat16.c:390-410 | allocation fails iff no entry in [2,total) is zero, whatever the hint; otherwise a free one is returned |
| FatChains.SafeExactly | fs/fat16.c:390-410 | the next n clusters handed out lie below a limit iff no free entry lies beyond it or n free entries lie between the place the search starts and it |
| FatChains.AmpleGrows | fs/fat16.c:1678-1687 | freeing clusters below the limit leaves at least as many ample |
| FatChains.ChainUnique | fs/fat16.c:1807-1814 | the table determines the chain that starts at a cluster |
| FatChains.ChainFrame | fs/fat16.c:1807-1814 | a chain stands when only entries outside it change |
| FatChains.Visit | fs/fat16.c:2059-2066 | the release loop ends on every table whose links stay inside, cyclic ones included, and stays in the table |
| FatChains.VisitReachable | fs/fat16.c:2059-2066 | the clusters visited are exactly those reachable from the start |
| FatChains.VisitChain | fs/fat16.c:1678-1687 | on a proper chain, release visits the chain |
| FatVolume.Volume.FreeClusterChain | fs/fat16.c:2059-2066 | zeroes the entries visited and changes nothing else |
| FatVolume.Volume.ReleaseChain | fs/fat16.c:1678-1687 | zeroes entries and data of the clusters visited, which must be on the disk, and changes nothing else |
| FatVolume.Volume.ReadCluster | fs/fat16.c:1269-1274 | delivers the bytes of the cluster |
| FatVolume.Volume.ZeroCluster | fs/fat16.c:1682-1684 | zeroes one cluster and nothing else |
| FatVolume.Volume.StoreChunk | fs/fat16.c:1709-1727 | stores whole sectors and one zero-padded sector; later sectors of the cluster keep their bytes |
| FatVolume.Volume.WriteTurn | fs/fat16.c:1698-1731 | one turn of the write loop: allocate, link, mark, store; nothing changes when no cluster is free |
| FatVolume.Volume.WriteChain | fs/fat16.c:1691-1733 | the whole loop, failing exactly when the value-level loop runs out of clusters, with that loop's state either way |
| FatVolume.Volume.ReserveChain | fs/fat16.c:1600-1632 | the allocation loop of create, and of a directory that grows: up to n clusters linked behind a cluster or as a new chain, stopping early when none is left |
| FatFiles.AppendGrows | fs/fat16.c:1691-1733 | the clusters taken, also when space runs out, were free, are distinct, linked in order and end-marked; other entries stay |
| FatFiles.AppendStores | fs/fat16.c:1691-1733 | the clusters taken hold the bytes written, in chain order |
| FatFiles.AppendCount | fs/fat16.c:1691-1733 | the loop succeeds iff ceil(size/cluster bytes) clusters are free, and takes that many |
| FatFiles.AppendTakesAll | fs/fat16.c:1698-1701 | a write that runs out of space has taken every free cluster |
| FatFiles.AppendBelow | fs/fat16.c:1691-1733 | a write whose next clusters are on the disk builds its chain there |
| FatFiles.ReserveCount | fs/fat16.c:1600-1632 | create gets as many clusters as asked for, or all that were free |
| FatFiles.ReserveBelow | fs/fat16.c:1600-1632 | so does a create |
| FatFiles.OverwriteSound | fs/fat16.c:1647-1746 | after an overwrite every other chain is whole, the clusters taken are a chain, and none is shared |
| FatFiles.FailedOverwriteSound | fs/fat16.c:1670-1701 | when space runs out, the old entry heads the last part of the clusters taken: every chain is whole, none shared, and no cluster is free |
| FatFiles.OverwriteReadsBack | fs/fat16.c:1647-1746 | the overwritten file holds exactly the new bytes |
| FatFiles.OverwriteBlocks | fs/fat16.c:1647-1746 | every cluster of another file holds what it held |
| FatFiles.OverwriteIsolated | fs/fat16.c:1647-1746 | every other file holds the same bytes, although freed clusters are reused |
| FatFiles.OverwriteConserves | fs/fat16.c:1678-1733 | an overwrite succeeds iff free clusters plus old chain suffice; the free count moves by old length minus ceil(size/cluster bytes) |
| FatFiles.ReleaseCount | fs/fat16.c:1775-1788 | a remove adds the chain length to the free count |
| FatFiles.ReleaseSound | fs/fat16.c:1775-1788 | a remove frees exactly the file's chain and leaves the others whole |
| FatVolume.Volume.ReadFile | fs/fat16.c:1414-1481 | delivers content[off .. min(off+n, FileSize)] of the chain's clusters, cut where the chain ends; -1 without a cluster |
| FatVolume.Volume.ReadFileRange | fs/fat16.c:2116-2159 | fails iff the offset is past the file, memory is short or the chain ends first; otherwise delivers the piece its 32-bit length asks for |
| FatFiles.RangeExact | fs/fat16.c:2117-2120 | the range reader delivers the specified slice iff off+n does not wrap, or nothing lies behind the file |
| FatFiles.RangeOverrun | fs/fat16.c:2117-2120 | an input where the sum wraps and bytes behind the file are delivered |
| FatVolume.ReadersAgree | fs/fat16.c:1414-1481 | both readers deliver the same bytes iff the sum does not wrap or nothing lies behind the file |
| FatFiles.ReadWhole | fs/fat16.c:1414-1481 | reading a whole file delivers its content |
| FatLfn.RunReadsBack | fs/fat16.c:718-767 | from any decoder state, the fragments of a name of at most 247 characters decode to it with exactly their slots; longer names decode to nothing |
| FatLfn.AsciiExact | fs/fat16.c:702-716 | a decoded name is the written one iff it is 7-bit |
| FatDir.PlaceInserts | fs/fat16.c:794-912 | writing an entry into free slots adds its item to the listing and changes no other item |
| FatDir.LongNameRoundTrip | fs/fat16.c:1057-1102 | the item read back has the entry's slot and exactly the slots written, and the very name iff it has at most 247 characters, all 7-bit |
| FatChecksum.ChecksumIsFold | fs/fat16.c:412-418 | the checksum of any bytes is the sum in an 8-bit register that is rotated right by one before each byte is added |
| FatChecksum.OneByteTells | fs/fat16.c:412-418 | names that differ in exactly one byte have different checksums |
| FatChecksum.ReadmeSum | fs/fat16.c:412-418 | the checksum of README.TXT is 0x73 |
| FatChecksum.StateExplained | fs/fat16.c:718-767 | the decoder is collecting iff the slots just read are the beginning of a run: parts counting down, the flag on the first alone; its checksum and text are those of these slots |
| FatChecksum.LongNameAttached | fs/fat16.c:829-844 | an entry of the listing has a long name iff the slots in front of it are a whole run whose first carries the rotating sum of its short name, and then its name is their text in part order |
| FatChecksum.DecodesPlain | fs/fat16.c:702-764 | a fragment of 7-bit characters is read as the bytes at 1, 3, 5, 7, 9, 14 to 24 and 28, 30 |
| FatDir.DeleteUndoesPlace | fs/fat16.c:783-790 | deleting a created entry gives back the listing from before, never-used slots staying last |
| FatDir.PlaceKeepsSuffix | fs/fat16.c:914-943 | never-used slots stay a suffix after an entry is written in place |
| FatNames.ShortTextOf | fs/fat16.c:1025-1040 | an entry with the short form of a valid name reads as that name in upper case |
| FatNames.FirstMatchInserted | fs/fat16.c:1134-1151 | an item added to a listing without a match is the one found |
| FatShown.LookupIgnoresCase | fs/fat16.c:1042-1055 | a lookup finds the same entry under every name that differs in the case of letters alone |
| FatShown.MatchesLong | fs/fat16.c:1042-1055 | an item matches a name iff its long or its short name differs from it in case alone |
| FatShown.CapitalsAreShort | fs/fat16.c:478-525 | up to eight and three capitals and digits need no long entry, and their short name is those bytes padded with blanks |
| FatShown.OthersAreLong | fs/fat16.c:478-525 | a lower-case letter, a longer base or a longer extension calls for a long entry |
| FatShown.PrepareTrims | fs/fat16.c:434-455 | preparation takes off blanks in front and blanks and dots behind, and nothing else |
| FatShown.PrepareRefuses | fs/fat16.c:449-454 | a name with nothing to take off is refused for any character no long name may hold |
| FatShown.PrepareEmpty | fs/fat16.c:434-443 | a name of blanks and dots alone is refused |
| FatShown.SanitizeDrops | fs/fat16.c:527-544 | an alias leaves out blanks, control characters, bytes above 0x7E and + , ; = [ ] : and keeps every other character, as a capital |
| FatShown.DroppedNeedLong | fs/fat16.c:463-525 | a name that holds one of these calls for a long entry |
| FatRoot.TakenFromExact | fs/fat16.c:588-637 | the test for a used short name says whether a live entry before the first never-used slot has it |
| FatRoot.GenerateExact | fs/fat16.c:648-690 | an alias is found iff one of five names is unused, and then no live entry has it |
| FatRoot.SixthAliasFails | fs/fat16.c:648-690 | with the five aliases of a name in the directory no further one is found, however many slots are free |
| FatShown.AliasBytes | fs/fat16.c:648-690 | the first alias of a name of six or more letters and digits is the first eight and three of their capitals, the next the first six, a tilde and a percent sign |
| FatRoot.UniquePlace | fs/fat16.c:588-690 | an entry under an unused short name keeps short names distinct |
| FatRoot.ItemRemoved | fs/fat16.c:783-790 | removing an item takes its file away; short names stay distinct and never-used slots last |
| FatRoot.LookupSound | fs/fat16.c:1134-1151 | a lookup returns a live entry that matches, with slots that hold long-name entries |
| FatRoot.LookupRewritten | fs/fat16.c:1735-1743 | rewriting an entry under its short name leaves every lookup with the slot it found |
| FatRoot.FindRunMeans | fs/fat16.c:914-943 | the first run of free slots, or that there is none |
| FatRoot.SpotMeans | fs/fat16.c:1545-1592 | create settles on free slots in front of every never-used one and on a short name no live entry has |
| FatLookup.CreatedIsFound | fs/fat16.c:1134-1151 | after a create under any name, the name is found iff it needs no long entry, or preparation leaves it as it is and it has at most 247 characters, all 7-bit; what is found is the entry written |
| FatShown.CreatedReads | fs/fat16.c:1594-1642 | the entry found after a create has attribute 0x20, the size asked for, and the very name given, case included |
| FatShown.CreatedShown | fs/fat16.c:1306-1316 | the listing shows the file under that name iff it needs a long entry or no fragments left over in front of its slot carry its checksum and another name |
| FatShown.LeftOverRenames | fs/fat16.c:829-844 | behind a left-over fragment of b with the checksum of A, a file created as A is listed as b |
| FatShown.MkdirReads | fs/fat16.c:1912-2036 | the entry found after a mkdir has attribute 0x10, the cluster the allocator would hand out next, and the very name given |
| FatShown.DirectoryBit | fs/fat16.c:1670-1671 | an entry is a directory iff bit 4 of its attribute is set, whatever the other bits are |
| FatShown.RefusedNames | fs/fat16.c:1530-1548 | no entry is made without a name, under . or .., or under a name that is found |
| FatLookup.LongNameNeverFound | fs/fat16.c:743-750 | a name of more than 247 characters is found in no directory |
| FatLookup.ChangedName | fs/fat16.c:430-460 | a name that preparation changes gets shorter, and starts with a blank or ends with a blank or a dot |
| FatLookup.CandidateText | fs/fat16.c:648-690 | no alias starts or ends with a blank, and one that ends with a dot is no longer than the name it is made from |
| FatLookup.UnfoundNeverWritten | fs/fat16.c:1658-1668 | writing under a name that is not found and could not be found after a create always fails |
| FatLookup.TrailingDotLost | fs/fat16.c:430-460 | the name of a letter and a dot is created as the letter alone, is not found again, and no write under it succeeds |
| FatLookup.LongNameNeverWritten | fs/fat16.c:1662-1668 | writing under a name of more than 247 characters always fails |
| FatRuns.AddEntryGood | fs/fat16.c:1525-1645 | create keeps the invariant, adds one whole disjoint chain and keeps every file's bytes |
| FatRuns.CreateCountExact | fs/fat16.c:1608-1611 | the clusters asked for hold the initial size iff the 32-bit sum does not wrap |
| FatRuns.HugeCreateGetsOne | fs/fat16.c:1608-1611 | a file created with 0xFFFFFFFF bytes gets one cluster |
| FatRuns.DirBlockMeans | fs/fat16.c:2004-2033 | the first cluster of a new directory lists itself and its parent and nothing else |
| FatRuns.MkdirGood | fs/fat16.c:1912-2036 | mkdir keeps the invariant, adds a one-cluster chain and keeps every file's bytes |
| FatRuns.WriteItemMeans | fs/fat16.c:1647-1746 | overwriting a found entry keeps the invariant, reads back as written and keeps every other file's bytes |
| FatRuns.FailedItemMeans | fs/fat16.c:1670-1701 | an overwrite that runs out of space keeps the invariant and every other file's bytes, and leaves no free cluster and the entry as it was |
| FatRuns.RemoveItemMeans | fs/fat16.c:1748-1796 | remove keeps the invariant, frees the whole chain and keeps every other file's bytes |
| FatRuns.WriteFileMeans | fs/fat16.c:1647-1746 | after a successful write by name, the name is found, its file reads as the bytes written, and every other file reads as before |
| FatRuns.FileAfterMeans | fs/fat16.c:1647-1746 | a write by name, successful or not, keeps the invariant and every file but the one named |
| FatRuns.RunsStayGood | fs/fat16.c:1525-1796 | over every run of creates, mkdirs, writes and removes, failing ones included, chains are acyclic, end-marked, disjoint and of used entries, short names distinct, never-used slots last |
| FatRuns.FreshGood | fs/fat16.c:2374-2482 | an empty root and a free table satisfy the invariant |
| FatTree.PutGet | fs/fat16.c:769-781 | the slots read from a directory's clusters are the slots written there |
| FatTree.BackSlots | fs/fat16.c:769-781 | writing the slots of one directory changes the slots of no other directory and no block outside it |
| FatTree.Settled | fs/fat16.c:1525-1796 | an operation that keeps directories, directory entries and chains leaves a good tree |
| FatTree.KeptContent | fs/fat16.c:1414-1481 | a file kept by an operation has the same content as before |
| FatTreeRuns.ItemTreeKeeps | fs/fat16.c:1670-1746 | overwriting a file of any directory, successfully or not, keeps the tree good and every other file of every directory |
| FatTreeRuns.ItemTreeReads | fs/fat16.c:1670-1746 | a successful overwrite in any directory reads back as written |
| FatTreeRuns.AddTreeKeeps | fs/fat16.c:1594-1645 | writing a new entry into free slots of any directory keeps the tree good, adds one whole disjoint chain and keeps every file of every directory |
| FatGrowth.ReserveZeroes | fs/fat16.c:984-1005 | every cluster a directory gets is zeroed |
| FatGrowth.GrowKeeps | fs/fat16.c:974-1005 | growth, also when the volume is full half way, keeps the tree good and every file of every directory, and adds slots never used to that directory alone |
| FatTreeRuns.RoomKeeps | fs/fat16.c:914-1022 | looking for room keeps the tree good and every file, found or not; the room found is in front of every never-used slot unless such a slot was left when the directory grew |
| FatTreeRuns.CreateInRoot | fs/fat16.c:1525-1645 | in the root the create of a tree is the create of a fixed root directory |
| FatTreeRuns.CreateInKeeps | fs/fat16.c:1525-1645 | a create by name in any directory, successful or not and with growth, keeps the tree good and every file of every directory; a successful one adds a file and takes a cluster, so the create-and-retry recursion ends |
| FatTreeRuns.CreateExact | fs/fat16.c:944-1022 | a successful create leaves a good tree iff the directory did not grow or had no slot never used; otherwise the name is not found |
| FatGrowth.GrowthExact | fs/fat16.c:984-1022 | when a directory grows, never-used slots stay last and the new entry is listed iff no slot never used was left; otherwise the listing does not change |
| FatGrowth.GrowthHides | fs/fat16.c:944-1022 | a name settled for a directory that has a slot never used but no run of free slots is not found after its create |
| FatGrowth.CrowdedHides | fs/fat16.c:944-1022 | a good directory of 64 slots, 63 of them live, in which a name of thirteen letters is created and then not found |
| FatTreeRuns.RemoveTreeKeeps | fs/fat16.c:1748-1796 | removing a file of any directory keeps the tree good and every other file of every directory |
| FatTreeRuns.MkdirTreeKeeps | fs/fat16.c:1912-2036 | making a directory in any directory, successfully or not and with growth, keeps the tree good and every file of every directory, and the new one is empty |
| FatTreeRuns.GrowCountHolds | fs/fat16.c:979-981 | a directory grows by the least number of clusters that hold the slots asked for |
| FatTreeRuns.WriteInMeans | fs/fat16.c:1647-1746 | a write by name in any directory, if successful, is found again and reads back; successful or not it keeps the tree good and every other file of every directory |
| FatTreeRuns.TreeRunsStayGood | fs/fat16.c:1525-2036 | over every run of creates, mkdirs, writes and file removals in the directories of a tree, failing ones and growth included, the chains of all entries of all directories are whole and disjoint, and each directory lies in the chain of its entry |
| FatTreeRuns.EmptyTreeGood | fs/fat16.c:2374-2482 | a good empty volume is a good tree |
| FatEngine.ReadSlot | fs/fat16.c:794-830 | one slot of the root through its sector |
| FatEngine.WriteSlot | fs/fat16.c:775-781 | one slot of the root rewritten, nothing else |
| FatEngine.MarkDeleted | fs/fat16.c:783-790 | one slot's first byte becomes 0xE5, nothing else |
| FatEngine.ShortNameExists | fs/fat16.c:588-637 | scans the root for a live entry with the short name |
| FatEngine.FindEntrySlot | fs/fat16.c:1134-1151 | the first match of the listing, the decoder run slot by slot |
| FatEngine.FindFreeSlots | fs/fat16.c:914-943 | the first run of free slots, with a counter that restarts |
| FatEngine.BuildFragment | fs/fat16.c:1057-1102 | one long-name fragment: text, one terminator, filler |
| FatEngine.WriteLfnEntries | fs/fat16.c:1057-1102 | the fragments in their slots, last part first |
| FatEngine.GenerateShortName | fs/fat16.c:648-690 | the first unused candidate |
| FatEngine.ChooseSpot | fs/fat16.c:1545-1592 | the checks and choices of create before the disk is touched |
| FatEngine.Fat16Create | fs/fat16.c:1525-1645 | create on the disk is create on the volume's value, 32-bit cluster count included; a refusal changes nothing |
| FatEngine.Fat16Mkdir | fs/fat16.c:1912-2036 | mkdir on the disk is mkdir on the volume's value; a refusal changes nothing |
| FatEngine.OverwriteItem | fs/fat16.c:1670-1746 | release, rebuild and entry rewrite on the disk, with the state left when space runs out |
| FatEngine.Fat16Write | fs/fat16.c:1647-1746 | write by name on the disk, with its create-and-retry recursion, which ends, and the state left by a failure |
| FatEngine.Fat16Remove | fs/fat16.c:1748-1796 | remove on the disk; a name not found changes nothing |
| FatDirEngine.ReadSlotAt | fs/fat16.c:856-863 | one slot of a cluster through its sector |
| FatDirEngine.WriteSlotAt | fs/fat16.c:769-781 | one slot of a cluster rewritten, nothing else |
| FatDirEngine.PutSlot | fs/fat16.c:769-781 | rewriting a slot of the k-th cluster is putting the directory with that one slot changed |
| FatDirEngine.ShortNameExistsIn | fs/fat16.c:613-637 | walks a directory's chain for a live entry with the short name |
| FatDirEngine.FindEntrySlotIn | fs/fat16.c:855-911 | the first match of a directory's listing, walked along its chain |
| FatDirEngine.GenerateShortNameIn | fs/fat16.c:648-690 | the first unused candidate in a directory |
| FatDirEngine.FindRunIn | fs/fat16.c:945-972 | the places of the first run of free slots, which may span clusters, or the last cluster of the chain |
| FatDirEngine.GrowDir | fs/fat16.c:974-1022 | zeroed clusters behind the last, as many as were to be had, and the places of their first slots |
| FatDirEngine.StoreEntryIn | fs/fat16.c:1634-1642 | fragments and short entry in their places, nothing else |
| FatDirEngine.Fat16CreateIn | fs/fat16.c:1525-1645 | create over the sectors of a directory's chain is create on the tree, with the growth left by a refusal |
| FatBacking.OverwriteAmple | fs/fat16.c:1670-1746 | an overwrite touches clusters of the disk alone if the free entries are ample before it |
| FatBacking.WriteSafe | fs/fat16.c:1647-1746 | so does a write by name if as many clusters are safe as its creates and its bytes take |
| FatBacking.CreatesOnce | fs/fat16.c:1658-1663 | a name that lookup can find again is created once at most |
| FatBacking.AfterKeepsBelow | fs/fat16.c:1525-1796 | an operation that touches clusters of the disk alone leaves every file on the disk and the volume good |
| FatBacking.RunsStayBacked | fs/fat16.c:1525-1796 | so does every run of such operations |
| FatMount.FindInMbr | fs/fat16.c:141-164 | the first of the four partitions that has a FAT16 type and an accepted boot sector |
| FatMount.Init | fs/fat16.c:166-204 | mounts the volume asked for, else one of the partition table, else one at sector 0 |
| FatMount.ProbeMeans | fs/fat16.c:108-138 | a boot sector is accepted iff its bytes meet every test, with the cluster count as an exact difference |
| FatMount.LayoutMeans | fs/fat16.c:195-198 | tables, root and data of every accepted boot sector start where its bytes at 14, 16, 17 and 22 say |
| FatMount.NoWrapMounted | fs/fat16.c:126-137 | a volume with more sectors ahead of its data than sectors is never mounted: the wrapped difference gives too many clusters |
| FatMount.RegionsPartition | fs/fat16.c:195-198 | the data ends with the volume, and the clusters counted are the whole clusters of the data |
| FatMount.MbrMeans | fs/fat16.c:141-164 | the volume of a partition table is that of the first entry with a FAT16 type, a first sector and an accepted boot sector, told on the bytes |
| FatMount.InitMeans | fs/fat16.c:166-190 | the volume mounted is at the address asked for if one is accepted there, else the first usable partition, else sector 0 if accepted, else there is none |
| FatMount.LocatedMeans | fs/fat16.c:166-190 | what is mounted was accepted where it is, and a volume is mounted at the address asked for iff its boot sector is accepted |
| FatMount.BufferExact | fs/fat16.c:1437 | a mounted volume's clusters fit the reader's 32 KB buffer iff it does not have 128 sectors a cluster |
| FatFormat.Format | fs/fat16.c:2374-2482 | writes the boot sector with its fields, tables and root, nothing else: media bytes in the first copy, zero entries and slots everywhere else; fails iff there are no sectors |
| FatFormat.BootReads | fs/fat16.c:2386-2447 | the fields the mount reads back from the boot sector are those of the layout and the number of sectors |
| FatFormat.BootFields | fs/fat16.c:2386-2447 | every other field of the boot sector in its place: names, media, geometry, hidden sectors, serial, label |
| FatFormat.ProbeFormatted | fs/fat16.c:108-138 | the boot sector is accepted iff the cluster count computed from the number of sectors is in [4085, 65525), and then gives exactly the layout written |
| FatFormat.MountableExactly | fs/fat16.c:2410-2417 | that count is in range iff there are from 16405 to 262644 sectors |
| FatFormat.MountsExactly | fs/fat16.c:166-190 | whatever else is on the disk, a formatted volume is mounted at its address iff there are from 16405 to 262644 sectors |
| FatFormat.SmallVolumeRefused | fs/fat16.c:108-138 | a disk of 10000 sectors is formatted with tables of 10 sectors, has 2486 clusters and is not mounted |
| FatFormat.FormattedAgrees | fs/fat16.c:2449-2461 | on a formatted disk the copies agree on an entry iff it is 2 or higher, or there is one copy |
| FatFormat.FormattedGood | fs/fat16.c:2374-2482 | a formatted disk satisfies the invariant of the run theorems |
| FatFormat.FormattedSafe | fs/fat16.c:2410-2417 | n clusters of a formatted disk can be taken safely iff the whole table is on the disk or n of its clusters are |
| FatFormat.FormatLeavesUnbacked | fs/fat16.c:2410-2417 | on 40000 sectors the last ten clusters of the table are not on the disk |
| FatFormat.FormatAndMount | fs/fat16.c:166-204 | formatting and then mounting gives the formatted layout iff there are from 16405 to 262644 sectors; up to 261656 the volume is valid, good and empty, and its copies agree on every entry the engine uses |
| HeapBlocks.AlignUp | mm/mem.c:37-41 | the least multiple of the alignment not below the address |
| HeapBlocks.FirstFit | mm/mem.c:108-116 | the first free block with room, or none |
| HeapBlocks.SplitOrdered | mm/mem.c:65-87 | a split keeps the list in order, aligned and ending where it did |
| HeapBlocks.JoinOrdered | mm/mem.c:276-296 | so does a join of touching blocks |
| HeapBlocks.CarveKeeps | mm/mem.c:118-146 | carving keeps the order and adds exactly the block handed out to those held |
| HeapBlocks.ExtendOrdered | mm/mem.c:148-192 | growth keeps the order, in each of its three treatments of the gap |
| HeapBlocks.ExtendUsed | mm/mem.c:148-192 | growth adds exactly the new block to those held |
| HeapBlocks.ReleaseKeeps | mm/mem.c:271-297 | freeing keeps the order and takes exactly that block from those held |
| HeapRuns.NormalizeMeans | mm/mem.c:43-55 | the normalized alignment is a power of two, a multiple of 4, not below the request and less than twice it |
| HeapRuns.AllocMeans | mm/mem.c:194-207 | a granted block is large enough, aligned, in a sound heap, and apart from every held block, headers included |
| HeapLaw.DeniedExactly | mm/mem.c:89-207 | a request is denied iff no free block has room at its least aligned payload and the heap cannot be made that long |
| HeapLaw.GrantedMeans | mm/mem.c:108-207 | a request gets the least aligned payload of the first free block with room, or of the heap's end, and less than 24 bytes more than asked for; a longer rest stays free |
| HeapRuns.FreeMeans | mm/mem.c:271-297 | freeing a live pointer keeps the heap sound and removes that holder only |
| HeapRuns.HeldIsLive | mm/mem.c:271-276 | the header in front of a held payload is the list's header for it |
| HeapRuns.OwnedStep | mm/mem.c:194-297 | every call keeps callers' ledger and list in agreement |
| HeapRuns.RunsStayOwned | mm/mem.c:194-297 | over every run the blocks held are in the list, inside the heap and pairwise apart |
| HeapTiles.AllocTiled | mm/mem.c:118-192 | a granted request keeps the tiling without free neighbours iff it was carved or the gap before the new block fits |
| HeapTiles.AllocUnaligned | mm/mem.c:118-192 | requests without alignment always keep it |
| HeapTiles.AlignmentLosesBytes | mm/mem.c:161-176 | an aligned request that loses the bytes of a gap |
| HeapTiles.ReleaseMerges | mm/mem.c:271-297 | in a tiling, freeing replaces the block and its free neighbours by one block over the same stretch |
| HeapTiles.FreeTiled | mm/mem.c:271-297 | freeing keeps the tiling and leaves no two free neighbours |
| HeapTiles.RunsStayTiled | mm/mem.c:65-297 | over every run without alignment the blocks tile [heap_base, heap_curr) with no two free neighbours |
| HeapTiles.NothingHeld | mm/mem.c:271-297 | freeing everything leaves one free block |
| HeapTiles.CarveThenRelease | mm/mem.c:118-146 | freeing what was carved, aligned or not, restores the list |
| HeapTiles.FreeUndoesAlloc | mm/mem.c:194-297 | kfree of a kmalloc served from a free block restores the heap, whatever the alignment |
| HeapWords.SplitLinks | mm/mem.c:73-86 | the pointer writes of a split leave the doubly linked list of the split |
| HeapWords.SplitSpares | mm/mem.c:73-86 | they write no word of a held payload |
| HeapWords.JoinLinks | mm/mem.c:276-296 | the pointer writes of a join leave the doubly linked list of the join |
| HeapWords.JoinSpares | mm/mem.c:276-296 | they write no word of a held payload |
| HeapWords.AppendLinks | mm/mem.c:163-187 | appending leaves the longer list and writes no word of a held payload |
| HeapMemory.SplitImage | mm/mem.c:65-87 | memory, globals and list agree after a split |
| HeapMemory.JoinImage | mm/mem.c:276-296 | memory, globals and list agree after a join |
| HeapMemory.CommitImage | mm/mem.c:209-221 | committing pages disturbs neither list nor payloads |
| HeapMemory.NormalizeAlign | mm/mem.c:43-55 | the doubling loop computes the normalized alignment |
| HeapMemory.KernelHeap.constructor | mm/mem.c:223-248 | an empty heap at the page-aligned start, wherever its end is; the default end is a 32-bit sum |
| HeapMemory.KernelHeap.SplitBlock | mm/mem.c:65-87 | splits only where 24 bytes remain; held payloads untouched |
| HeapMemory.KernelHeap.FindFreeBlock | mm/mem.c:89-116 | walks the links to the first fit and gives its aligned header |
| HeapMemory.KernelHeap.AllocateFromBlock | mm/mem.c:118-146 | carves the list in memory; held payloads untouched |
| HeapMemory.KernelHeap.CommitTo | mm/mem.c:209-221 | maps whole pages up to the need or fails, list and payloads undisturbed |
| HeapMemory.KernelHeap.AllocateNewBlock | mm/mem.c:148-192 | grows the list in memory inside committed pages, or changes nothing |
| HeapMemory.KernelHeap.FillGap | mm/mem.c:160-177 | the gap becomes a block, joins a free tail, or is lost |
| HeapMemory.KernelHeap.KmallocAligned | mm/mem.c:194-207 | the list changes as specified, null is returned iff the request is denied, and no held payload changes; for requests up to 64 MB in a heap below 0xF0000000 the 32-bit request is this one |
| HeapMemory.KernelHeap.Kmalloc | mm/mem.c:250-265 | the same with page alignment or none |
| HeapMemory.KernelHeap.Kfree | mm/mem.c:271-297 | the list changes as specified, and no payload still held changes |
| HeapWidth.Align4Exact | mm/mem.c:7 | the 32-bit rounding is right iff the size is at most 0xFFFFFFFC; above, it gives 0 |
| HeapWidth.FitExact | mm/mem.c:89-106 | the 32-bit test accepts a block that is too small iff the sum wraps to at most the block's end |
| HeapWidth.TooLargeFits | mm/mem.c:89-106 | a block of 256 bytes that the test accepts for 0x3F000000 |
| HeapWidth.GrowExact | mm/mem.c:148-156 | the 32-bit limit test grants growth beyond the limit iff the sum wraps to at most the limit |
| HeapWidth.CarveSame | mm/mem.c:118-146 | with room in the block the 32-bit sizes and addresses of carving and splitting are those meant |
| HeapWidth.WrappedFitShort | mm/mem.c:118-146 | a block that passes a wrapped test is handed out with too few bytes or ends behind the last address |
| HeapWidth.AllocWordExact | mm/mem.c:194-207 | a whole 32-bit request gives what is meant iff no sum wraps past a test |
| HeapWidth.WrapIsShort | mm/mem.c:89-192 | a request that wraps past a test gets a pointer with fewer bytes behind it than asked for |
| HeapWidth.WideRequestGranted | mm/mem.c:148-192 | 0x3F000000 bytes on a fresh default heap are granted, and the heap then continues at 0x10 |
| HeapWidth.ModestIsMeant | mm/mem.c:194-207 | every request up to 64 MB, aligned to at most a page, of a sound heap below 0xF0000000 gives what is meant |
| HeapWidth.ModestBehind | mm/mem.c:194-207 | such a request gets null or all the bytes it asked for |
| HeapWidth.WordRunsStayOwned | mm/mem.c:194-297 | over every run of such requests with 32-bit sums the blocks held are in the list, inside the heap and pairwise apart |
| HeapWidth.NormalizeReturns | mm/mem.c:46-50 | the doubling loop ends iff the alignment is at most 2^31 |
| HdaCodec.GetConnections | drivers/hda.c:344-386 | the first 32 entries unpacked from short or long form, failing iff a response is missing |
| HdaCodec.ReadResponse | drivers/hda.c:355-383 | one response unpacked: two or four more entries of the list |
| HdaCodec.Score | drivers/hda.c:388-418 | the score lies in [-5, 190], far above the mark for tried pins |
| HdaCodec.OutputPinsFirst | drivers/hda.c:388-418 | a pin that can drive an output outranks every pin that cannot |
| HdaCodec.DevicesRanked | drivers/hda.c:388-418 | pins alike but for the device rank line out, speaker, headphone, the rest |
| HdaCodec.ConnectedFirst | drivers/hda.c:402-405 | of two pins alike but for the port connectivity the connected one scores 10 more |
| HdaCodec.ConfiguredFirst | drivers/hda.c:397 | a configuration word that is not zero scores 5 more |
| HdaCodec.PreferredFirst | drivers/hda.c:413-415 | pin 0x14 scores 30 more than another pin that answers the same |
| HdaCodec.InputsLast | drivers/hda.c:391-395 | a pin for input alone scores 10 less than one for neither |
| HdaCodec.EntryBytes | drivers/hda.c:367-381 | the entries of a response are its bytes, all four in the short form, the first and the third in the long form |
| HdaCodec.LengthBits | drivers/hda.c:352-353 | a list's length is seven bits and its form the bit above |
| HdaRoute.SearchSound | drivers/hda.c:420-466 | a path found goes on from the prefix without repetition, along connections, within 10 widgets, to an audio output |
| HdaRoute.SearchComplete | drivers/hda.c:420-466 | if any such path exists one is found, whatever the selectors were |
| HdaRoute.SearchFrame | drivers/hda.c:451-463 | the search leaves the selectors of widgets already on the path alone |
| HdaRoute.SearchRoutes | drivers/hda.c:451-463 | every selector or pin on the path found is left selecting the next widget |
| HdaRoute.SearchDecides | drivers/hda.c:420-473 | the search succeeds iff a route starts at the pin; its result is a route with all selectors set |
| HdaSelect.AllPinsListed | drivers/hda.c:495-523 | before the cut at 32, the candidates are exactly the pin widgets of the group |
| HdaSelect.NodeBytes | drivers/hda.c:484-485 | a group's first node and node count are the third and the first byte of the answer |
| HdaSelect.BestScore | drivers/hda.c:567-576 | the first index of the largest score not struck out, or -1 |
| HdaSelect.Driver.DfsToDac | drivers/hda.c:420-466 | path buffer, selectors and result are those of the search; the prefix stays |
| HdaSelect.Driver.TryInputs | drivers/hda.c:451-465 | the loop over a connection list |
| HdaSelect.Driver.FollowToDac | drivers/hda.c:468-473 | succeeds iff a route starts at the pin, and leaves it in the buffer with selectors set |
| HdaSelect.Driver.ListPins | drivers/hda.c:495-523 | the candidates in node order, at most 32, with their scores |
| HdaSelect.Driver.TryPreferred | drivers/hda.c:546-563 | pin 0x14 is taken iff it is a candidate with a route |
| HdaSelect.Driver.TryByScore | drivers/hda.c:565-591 | the first of the best-scored candidates with a route; failure iff none has one |
| HdaSelect.Driver.SelectOutputPath | drivers/hda.c:475-592 | fails iff no candidate has a route; otherwise the forced, preferred or best-scored one is connected |
| HdaResample.CoveredExactly | drivers/hda.c:1100-1123 | every sample read is in bounds iff the last frame's samples are |
| HdaResample.SampleOutside | drivers/hda.c:1100-1123 | a file of one data byte that passes the checks and whose second sample lies beyond it |
| HdaResample.PackedIsCovered | drivers/hda.c:1100-1123 | a block alignment of channels times sample bytes is enough |
| HdaResample.Sample | drivers/hda.c:1100-1123 | every sample is a 16-bit value |
| HdaResample.BlendBetween | drivers/hda.c:1133-1144 | the product fits 32 bits, the blend lies between its neighbours, and the clamp is the identity |
| HdaResample.StepExact | drivers/hda.c:1255-1263 | the step is floor(rate*65536/48000), never zero, with no 32-bit overflow |
| HdaResample.TotalMeans | drivers/hda.c:1156-1161 | output frame n exists iff n < ceil(frames*65536/step) |
| HdaResample.FramesJoin | drivers/hda.c:1146-1190 | pieces of the one-pass result join at any boundary |
| HdaResample.IndexFits | drivers/hda.c:1157 | the source index never leaves 32 bits |
| HdaResample.Player.constructor | drivers/hda.c:1255-1264 | playing starts at frame 0 with the exact step |
| HdaResample.Player.FillBuffer | drivers/hda.c:1146-1190 | 1024 frames of the one-pass result or all that are left, then silence; the end flag is set iff none is left |
| HdaResample.Player.Drain | drivers/hda.c:1146-1190 | buffers filled until the end flag hold exactly the one-pass result |
| HdaSound.SampleIs | drivers/hda.c:1100-1123 | a sample is the signed 16-bit word, or the 8-bit byte less 128 times 256, at its place in the file |
| HdaSound.OutNear | drivers/hda.c:1133-1172 | every output frame at every rate: left lies within rounding of the straight line between samples of channel 0, right of channel 1, or is the left of a mono file |
| HdaSound.StereoDelivered | drivers/hda.c:1146-1172 | a packed 16-bit stereo file at 48 kHz is delivered as its own samples, bytes 4i and 4i+1 left, 4i+2 and 4i+3 right |
| HdaSound.MonoDelivered | drivers/hda.c:1146-1172 | a packed 8-bit mono file at 48 kHz is delivered with each sample on both sides |
| HdaSound.BufferHolds | drivers/hda.c:1156-1175 | a filled buffer holds the output frames in order, left before right |
| ElfReloc.ImagePtr | kernel/elf.c:154-170 | an offset iff the whole range lies in the image |
| ElfReloc.TableKept | kernel/elf.c:285-289 | with separate targets the REL table is read as it was |
| ElfReloc.SymbolKept | kernel/elf.c:187-205 | so is every symbol used |
| ElfReloc.TurnMeans | kernel/elf.c:285-331 | one turn, told from the pristine image |
| ElfReloc.ApplyMeans | kernel/elf.c:284-333 | the loop succeeds iff every relocation can be carried out, and leaves the words meant and all other bytes alone |
| ElfReloc.WordShift | kernel/elf.c:293-326 | RELATIVE, 32, GLOB_DAT and JMP_SLOT words move by the bias difference mod 2^32, PC32 words not at all |
| ElfReloc.BaseIndependent | kernel/elf.c:207-334 | at two biases the loop succeeds for both or neither, and images differ in moving words only, by the bias difference |
| ElfLaw.RelocationLaw | kernel/elf.c:284-333 | where the words named overlap neither one another nor the tables: the loop succeeds iff every relocation can be carried out, told on the bytes of table and symbols; then each word named is, modulo 2^32, B+A, B+S+A, B+S+A-P or B+S after its type, and every other byte is as it was |
| ElfLaw.TurnLaw | kernel/elf.c:286-330 | one relocation of any image: carried out iff its word lies in the image and its type and symbol are good, told on the bytes; then its word is the sum above and every other byte is as it was, else nothing changes |
| ElfLaw.ApplyLaw | kernel/elf.c:284-333 | whatever overlaps, each relocation is carried out by that law on the image left by those before it, up to the first that cannot be; the loop succeeds iff there is none |
| ElfLaw.RelIs | kernel/elf.c:284-287 | r_offset, type and symbol index are the bytes of the entry |
| ElfLaw.SymIs | kernel/elf.c:187-205 | a symbol's value is the word behind its name, if its section index is not zero |
| ElfImage.NotedMeans | kernel/elf.c:234-263 | for every dynamic tag the last entry before DT_NULL wins; any RELA tag is noted |
| ElfLaw.PlanTells | kernel/elf.c:207-282 | which tables the dynamic section announces, told on its bytes, and when it is refused or has nothing to relocate |
| ElfImage.RelocateIndependent | kernel/elf.c:207-334 | the same from the dynamic section on |
| ElfImage.ScanDynamic | kernel/elf.c:234-263 | reads the dynamic section up to DT_NULL |
| ElfImage.ApplyOne | kernel/elf.c:285-331 | one relocation in place |
| ElfImage.ApplyRelocations | kernel/elf.c:207-334 | all relocations in place; on failure the image is as patched so far |
| ElfLoad.FindBounds | kernel/elf.c:394-425 | accepts iff every loadable segment passes its checks, and bounds them tightly |
| ElfLoad.CheckedExactly | kernel/elf.c:400-418 | the checks of a segment pass iff its sizes are in order, its end does not leave 32 bits, and its bytes lie in the file or their end wraps into it |
| ElfLoad.ChooseKeeps | kernel/elf.c:124-137 | a base keeps ranges in the window, page-aligned and a page apart |
| ElfLoad.ChooseExactly | kernel/elf.c:124-137 | an image gets the higher of the next free address and the least allowed, unless it would end above the window; the next one starts a page behind it |
| ElfLoad.RunsApart | kernel/elf.c:124-137 | over every run of loads the ranges are page-aligned, in the user window and pairwise at least a page apart |
| ElfLoad.ChecksPlace | kernel/elf.c:394-491 | for a file of at most 64 MB and an image that fits the user window, the checks put every segment inside both |
| ElfLoad.SegmentAppears | kernel/elf.c:476-491 | a segment that overlaps no other appears as its file bytes followed by zeros |
| ElfLoad.RestIsZero | kernel/elf.c:474-491 | bytes outside all segments are zero |
| ElfLoad.EntrySits | kernel/elf.c:516 | the entry lies in the range that gets mapped, moved with the image |
| ElfLoad.CopySegments | kernel/elf.c:476-491 | the zeroed image after all copies |
| ElfLoad.DynamicIsFirst | kernel/elf.c:209-215 | the dynamic section is that of the first header of type 2 |
| ElfLoad.Loader.ChoosePieBase | kernel/elf.c:124-137 | a base and the next free address, or 0 and no change |
| ElfLoad.Loader.PlanLoad | kernel/elf.c:394-466 | a range is planned iff every check on the headers passes and, for a position-independent image, a base is left; segments and entry lie in it |
| ElfLoad.Loader.LoadImage | kernel/elf.c:394-521 | fails iff a check fails, no base is left, the heap returns null or a relocation fails; overruns its buffer iff the heap returns too few bytes; otherwise delivers the composed and relocated image with its entry inside |
| ElfHeap.ShortExactly | kernel/elf.c:468 | a whole number of pages gets too few bytes from the heap iff the request wraps past one of its tests |
| ElfHeap.LoadOverruns | kernel/elf.c:468-474 | a load overruns its buffer iff its headers pass the checks and the heap's request for the image wraps |
| ElfHeap.HugeSegmentOverruns | kernel/elf.c:394-474 | one segment of 0x3F000000 bytes passes every check and overruns the buffer of a fresh default heap |
| Rescan.StepKeepsInv | fs/disk.c:31-50 | every step of any thread keeps the invariant |
| Rescan.ScansNeverOverlap | fs/disk.c:31-50 | in every interleaving exactly one token of work exists while pending is set and none otherwise, so scans never overlap |
| Rescan.QuietMeansServed | fs/disk.c:307-325 | in a quiet state a request is unserved iff the queue refused a rescan since the last scan began |
| Rescan.EveryRequestServed | fs/disk.c:307-325 | in every run, at rest or not, if no requester is undoing when a request is made and no later enqueue fails, a scan begins after it within three steps that are not requests |
| Rescan.ServedWhenAccepted | fs/disk.c:307-325 | if enqueues succeed throughout, every request is followed by such a scan |
| Rescan.UndoLosesRequest | fs/disk.c:318-323 | a request made while another requester is undoing is lost |
| Rescan.ServedAtRest | fs/disk.c:307-325 | in a run at rest without a refusal since the last scan, every request was followed by a scan that began after it |
| Rescan.NoRefusal | fs/disk.c:318-323 | if enqueues succeed there is no refusal |
| Rescan.ComesToRest | fs/disk.c:31-50 | until quiet some step is possible, and every step but a request uses up work |
| Rescan.RestBound | fs/disk.c:31-50 | a stretch without requests is no longer than the work at its start |
| Rescan.RefusalLosesRequests | fs/disk.c:318-323 | a run in which a refused enqueue leaves two requests unserved and the again flag set |
| GuiDesk.ClampExact | cmds/gui.c:333-353 | a clamped window lies in the work area iff neither far edge overflows 32 bits |
| GuiDesk.ClampOverflows | cmds/gui.c:333-353 | a window that stays outside |
| GuiDesk.RemovedMeans | cmds/gui.c:305-316 | removal takes exactly the slot out of the z-order, keeping the order and an uninvolved top |
| GuiDesk.HitMeans | cmds/gui.c:423-436 | the window hit is the topmost one that contains the point; -1 iff none does |
| GuiDesk.ContainsMeans | cmds/gui.c:423-436 | for windows in the work area the test is the rectangle |
| GuiDesk.FocusTidy | cmds/gui.c:318-331 | focusing keeps the invariant |
| GuiDesk.CreateTidy | cmds/gui.c:355-404 | creating keeps the invariant |
| GuiDesk.DestroyTidy | cmds/gui.c:406-421 | destroying keeps the invariant |
| GuiDesk.EventTidy | cmds/gui.c:762-832 | so does every message and click |
| GuiDesk.EventKeepsSystem | cmds/gui.c:406-421 | system windows are never destroyed or changed |
| GuiDesk.EventInside | cmds/gui.c:762-832 | a message whose edges do not overflow keeps every window in the work area |
| GuiDesk.RunsStayTidy | cmds/gui.c:762-935 | over every sequence of messages and clicks the z-order lists exactly the used slots, focus is its top, each pid has at most one client window, system windows stay |
| GuiDesk.RunsStayInside | cmds/gui.c:762-935 | over every such sequence without overflowing creates, every window stays in the work area |
| GuiLaw.ClickMeans | cmds/gui.c:921-928 | a click on the close button of the topmost client window under it removes that window alone; any other click on a window raises the topmost one; a click on none changes nothing |
| GuiLaw.ClickCloses | cmds/gui.c:921-928 | a window goes away iff it is the topmost under the point, a client's, and the point is on its close button; otherwise it is unchanged |
| GuiLaw.ButtonIs | cmds/gui.c:438-459 | the close button is a square four pixels from the right end of the title bar, centred in its height |
| GuiLaw.ButtonPlace | cmds/gui.c:438-459 | two points of a window, one on the button and one not |
| GuiLaw.CloseMeans | cmds/gui.c:812-822 | after a close message the sender has no client window and every other window is as it was |
| GuiLaw.CreateMeans | cmds/gui.c:766-784 | a create message that fits opens a client window of the sender at its x and y, width from the high half of the size word, height from the low half, in the lowest free slot, on top and in focus |
| GuiLaw.CreateAgain | cmds/gui.c:775-794 | a second create message raises the sender's window; with no slot free nothing changes |
| GuiLaw.TextMeans | cmds/gui.c:795-811 | text from a process without a window opens one of the default size at the next place of the cascade |
| GuiServer.Server.constructor | cmds/gui.c:286-294 | an empty desk with its system window |
| GuiServer.Server.FindByPid | cmds/gui.c:296-303 | the first client slot of the pid, or -1 |
| GuiServer.Server.RemoveFromZ | cmds/gui.c:305-316 | the array shifted down over the slot |
| GuiServer.Server.WindowFocus | cmds/gui.c:318-331 | the slot on top with focus; a negative index drops focus; an unused slot is ignored |
| GuiServer.Server.WindowCreate | cmds/gui.c:355-404 | the lowest unused slot filled, on top with focus, or -1 and no change |
| GuiServer.Server.WindowDestroy | cmds/gui.c:406-421 | a client window gone and focus on the new top |
| GuiServer.Server.WindowFindAt | cmds/gui.c:423-436 | the hit test over the arrays |
| GuiServer.Server.HandleMessage | cmds/gui.c:762-832 | the desk after the message |
| GuiServer.Server.HandleClick | cmds/gui.c:921-934 | the desk after the click |
| PmmPages.AllocIsFresh | mm/pmm.c:117-126 | an allocation is the lowest free page, held by nobody and not reserved; failure iff all are used |
| PmmPages.AllocKeepsSurplus | mm/pmm.c:117-126 | allocation keeps free_memory - 4096 * clear bits |
| PmmPages.FreeKeepsSurplus | mm/pmm.c:128-136 | so does every free, of whatever page |
| PmmPages.FreeMeans | mm/pmm.c:128-136 | a free clears exactly the page named; it changes nothing iff that page is beyond memory or not in use |
| PmmPages.FreeUndoesAlloc | mm/pmm.c:117-136 | freeing the page just handed out gives back the state before |
| PmmPages.ReserveMeans | mm/pmm.c:34-45 | so does a reservation, which marks exactly its pages |
| PmmPages.RunsKeep | mm/pmm.c:20-136 | over every run held pages are distinct and never reserved ones, and free_memory - 4096 * clear bits is constant |
| PmmPages.RunsExact | mm/pmm.c:20-136 | over every run a page is in use iff somebody holds it or it is set aside |
| PmmBitmap.SetBitMeans | mm/pmm.c:16 | setting a bit changes that bit alone |
| PmmBitmap.ClearBitMeans | mm/pmm.c:17 | clearing a bit changes that bit alone |
| PmmBitmap.Allocator.MarkUsed | mm/pmm.c:20-22 | one flag set, pages beyond the highest left alone |
| PmmBitmap.Allocator.MarkFree | mm/pmm.c:23-25 | one flag cleared, pages beyond the highest left alone |
| PmmBitmap.Allocator.FindFreePage | mm/pmm.c:27-32 | the lowest clear flag, or -1 |
| PmmBitmap.Allocator.AllocPage | mm/pmm.c:117-126 | the page taken and its address, or null; while page 0 is in use, null iff no page is free |
| PmmBitmap.Allocator.FreePage | mm/pmm.c:128-136 | the page given back if it was used |
| PmmBitmap.Allocator.ReserveRegion | mm/pmm.c:34-45 | the pages from the rounded start to the rounded 32-bit end are set aside |
| PmmBitmap.RegionExact | mm/pmm.c:34-45 | a region is covered iff it ends at or below 0xFFFFF000 |
| PmmBitmap.LastPageNotReserved | mm/pmm.c:34-45 | reserving one byte of the last page reserves nothing |

## Left out

- FAT32 and XVFS: other formats with other write paths; their allocators do not satisfy the laws proved here.
- Paths and the current directory; rm and rmdir of a directory, after which its files are unreachable.
- FatTreeRuns.TreeRunsStayGood: asks that a directory grows only when it has no slot left that was never used; FatTreeRuns.CreateExact shows that otherwise the tree is not good afterwards. Removals name files.
- FatDirEngine.Fat16CreateIn: of the operations in directories other than the root, create is on the disk; mkdir, write and remove there are on values.
- FatDirEngine.ReadSlotAt: the nested cluster, sector and slot loops of the walks are one loop over slots.
- Rename, copy and move on FAT16 volumes, and its free-cluster counter.
- FatVolume.Volume.ReadFileRange: asks that an entry without a cluster has size 0; for a damaged one the source reads sectors in front of the data region.
- FatVolume.Volume.WriteChain: asks that the clusters it takes are on the disk; FatChains.SafeExactly says when they are. Beyond it the source writes past the volume.
- FatVolume.Volume.ReleaseChain: asks that links stay inside the table and that the chain is on the disk; otherwise the source writes past them.
- FatVolume.Volume.FreeClusterChain: asks that links stay inside the table; beyond it the source reads sectors that are not the table.
- FatFormat.FormatAndMount: a volume of 261657 to 262644 sectors is mounted and not modelled further: its table of 256 sectors has entries at and above the end marks.
- FatVolume.Volume.constructor: takes a layout with tables of at most 255 sectors and clusters of at most 32 KB; FatMount.Init is what the mount accepts.
- FatMount.Init: reading fails exactly beyond the disk; other drive errors are not modelled.
- FatEngine.Fat16Create: names and their preparation are modelled on values, and the nested sector and slot loops as one loop over slots.
- HeapMemory.KernelHeap.KmallocAligned: sums are exact, which is what the code does for requests up to 64 MB, aligned to at most a page, in a heap below 0xF0000000 (HeapWidth.ModestIsMeant); HeapWidth.AllocWordExact says which other requests wrap, and memory after one that does is not modelled. The physical address that kmalloc can report is not modelled.
- HeapRuns.RunsStayOwned: sums are exact; HeapWidth.WordRunsStayOwned is the theorem for the code's sums, over requests up to 64 MB.
- HeapMemory.KernelHeap.constructor: a start in the last page, whose rounding wraps to 0, is not modelled.
- HeapMemory.NormalizeAlign: the test for a power of two is one predicate, not a bit operation.
- HdaSelect.Driver.DfsToDac: reads answer the same every time and selector writes succeed; range entries of a connection list are taken as widgets, as in the code.
- HdaResample.Player.Drain: stands for the playing loop; DMA positions, polling and the WAV parser are not modelled.
- ElfLoad.Loader.LoadImage: starts from parsed program headers of a file of at most 64 MB; header checks, file reading and page mapping are not modelled. What the heap returns is an argument, which ElfHeap.LoadOverruns ties to the heap; what an overrun overwrites is not modelled.
- Rescan.StepKeepsInv: the work queue is a count of queued rescans that may refuse; its ring is not modelled.
- GuiServer.Server.HandleMessage: titles, bodies, the log and drawing are not modelled.
- GuiServer.Server.WindowFocus: asks for an index below 8, which its callers give and it does not test.
- PmmBitmap.Allocator.AllocPage: the 64-bit byte count is unbounded; boot-time parsing of the memory map is the constructor's argument.
- Process scheduler, paging, USB, other drivers, shell, script interpreter and ring buffers: no part of this model.
