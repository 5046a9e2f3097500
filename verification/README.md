# Verified model of the dex-os-64 kernel

A Dafny model of the stateful parts of dex-os-64, a small x86_64 kernel: the exFAT-style file store, the
page tables over the frame allocator, the two memory allocators, the text console with its scrollback and
line editor, the block stack with unaligned byte access, and the cooperative scheduler. `dafny verify
dfyconfig.toml` checks everything.

Each component comes in two layers. A class with the source's own fields and loops is proved to do, call by
call, what a function on values says (`ensures (State(), rc) == FileStore.Write(...)`, `ensures blocks ==
Take(...)`, `ensures screen == Put(...)`). The properties are then proved of those functions: over single
calls, over every run of calls, and against an independent, simpler thing that the component is supposed to
be.

| component | modules | the simpler thing |
|---|---|---|
| file store | `FatChain`, `FileData`, `Directory`, `FileStore`, `FileRuns`, `FileCases`; `Layout`, `DirBuffer`, `ExFat` | a list of named byte sequences |
| page tables | `PageTree`, `Identity`, `PageRuns`; `Vmm` | a finite map from pages to entries |
| frame allocator | `FrameMap`, `FrameRuns`; `Pmm` | live claims on frames |
| kernel heap | `HeapBlocks`, `HeapRuns`; `Kmalloc` | the live allocations and the gaps between them |
| console | `Terminal`; `Console` | a terminal that never forgets a line |
| line editor | `LineEdit`; `Input` | text before and after a cursor |
| block stack | `Block`, `DevFs` | the bytes of a device |
| scheduler | `Threads`; `Sched` | a queue of thread numbers |

`Bytes` holds little-endian fields, splicing and 64-bit wrap-around, which is written out wherever the source
adds or multiplies 64-bit values (`W64`).

## Where the code does not do what one would expect

Each of these is the code's behaviour, kept as it is, with the exact condition that a caller can check and an
input that shows it.

- Writing behind the end of a file makes the old bytes on its chain part of the file; it is zero-filled exactly
  when those bytes are zero, which they stay on a volume that starts out so: `FileStore.WriteIsExpectedIff`,
  `FileRuns.RunRefines`, `FileCases.WriteUncoversOldBytes`.
- A write whose 64-bit end wraps runs the "just in case" allocation, takes every free cluster and fails; no
  other write runs it: `FileStore.ExtraAllocationIff`, `FileStore.WrappedWriteFills`,
  `FileCases.LastOffsetTakesCluster`.
- Removing a file that is not listed last makes all later files invisible and leaves their clusters taken:
  `FileStore.UnlinkRemovesOne`, `FileStore.UnlinkLosesClusters`, `FileCases.UnlinkLosesSecondFile`.
- A name is shown as it was given exactly when it has at most 63 characters, all ASCII:
  `Directory.ShownExactly`, `Directory.LongNameIsCut`.
- A root directory whose own FAT entry is zero becomes part of a file exactly when the file wants more clusters
  than are free below it: `FileStore.RootIsTakenIff`, `FileStore.RootJoinsFileIff`,
  `FileCases.UnmarkedRootIsTaken`, `FileCases.UnmarkedRootJoinsFile`.
- A byte request whose 64-bit end wraps is served short: `DevFs.ClipIsWanted`, `DevFs.ReadWrapped`.
- A partition is isolated exactly as long as sector numbers do not wrap: `Block.BlockDevice.IsolatedIff`,
  `Block.BlockDevice.LastNumberEscapes`.
- A request that the RAM disk accepts stays in the disk's memory exactly when its last byte address does not wrap;
  two sectors from number 2^55 - 1 on start 512 bytes in front of it: `Block.BlockDevice.StaysInMemoryIff`,
  `Block.BlockDevice.LastAddressEscapes`.
- `vmm_virt_to_phys` is right exactly when every flag from bit 12 on is a bit of the address anyway:
  `Vmm.MappedTranslates`, `Vmm.NoExecuteTranslatesWrong`.
- The free counter is right after start-up exactly when the regions do not overlap, and stays off by the same
  amount otherwise: `Pmm.FrameAllocator.Init`, `Pmm.TwiceIsNotApart`, `Pmm.CountedTwice`.
- A reservation made after an allocation takes its frames regardless: `FrameRuns.RunApartIffCareful`,
  `FrameRuns.LateReservationOverlaps`.
- A reservation takes exactly the frames with a byte of its range exactly when its end does not wrap, it starts
  behind the bitmap, or start and wrapped end both lie in the last frame: `Pmm.SpanExactIff`,
  `Pmm.LongReserveMisses`. One of no bytes takes a frame exactly when it starts inside one:
  `Pmm.EmptySpanIff`, `Pmm.EmptyReserveTakes`.
- `kmalloc_init` on less than a header makes a block of nearly 2^64 bytes: `Kmalloc.FirstBlockFitsIff`,
  `Kmalloc.TinyHeap`.
- `kmalloc` of more than 2^64 - 16 bytes returns a block that does not hold them: `HeapRuns.LivePayloads`,
  `HeapRuns.WrappedRequest`.
- From one screen above the live window on, scrolling moves the display although the view offset follows:
  `Terminal.ScrollPinsView`, `Terminal.ScrollMovesView`, `Terminal.FollowedViewMoves`.
- Home denotes the oldest line kept, but the display never starts more than a screen above the live window, so
  it starts at that line exactly when the history is no longer than the screen: `Terminal.LookDenotes`,
  `Terminal.DisplayIs`, `Terminal.HomeShowsLater`.
- A line feed does not redraw, so it leaves video memory right exactly when it keeps the view:
  `Terminal.FeedKeepsViewIff`, `Console.Console.Putc`, `Terminal.FeedMovesView`.
- A line that reaches the last column loses the cursor: `LineEdit.CharShowsIff`, `LineEdit.FullRowLosesCursor`.
- Branches proved unreachable: the allocation inside the writing loop of `exfat_write`
  (`ExFat.Volume.NextCluster`), the clamp of the view offset (`Console.Console.ScrollUp`), and the test for the
  current thread at the head of the queue (`Sched.Scheduler.Yield`).

## Model

| member | source | states |
|---|---|---|
| `FatChain.ChainIsAcyclic` | src/kernel64/fs/exfat.c:215-216 | a FAT chain that ends in the end mark visits no cluster twice, so every walk along it terminates |
| `FatChain.ChainIsUnique` | src/kernel64/fs/exfat.c:215-216 | the first cluster determines the whole chain |
| `FatChain.FirstFree` | src/kernel64/fs/exfat.c:183-186 | the lowest free cluster, 0 exactly when there is none |
| `FatChain.ExtendChain` | src/kernel64/fs/exfat.c:218-223 | extending a chain keeps the old chain as a prefix, appends only clusters that were free, zeroed, and leaves a valid longer chain also when space runs out |
| `FatChain.ExtendSucceeds` | src/kernel64/fs/exfat.c:218-219 | extending by `k` succeeds exactly when `k` clusters are free |
| `FatChain.ExtendTakesIff` | src/kernel64/fs/exfat.c:183-223 | extension takes clusters in order: one is among them exactly when it is free and more are wanted than are free below it |
| `FatChain.ExtendTwice` | src/kernel64/fs/exfat.c:218-223 | extending in two stages is extending once |
| `FatChain.ExtendSaturates` | src/kernel64/fs/exfat.c:218-223 | once more clusters are wanted than are free, it does not matter how many |
| `FatChain.ChainBound` | src/kernel64/fs/exfat.c:215-216 | a chain is no longer than the FAT |
| `FatChain.ReleaseFrees` | src/kernel64/fs/exfat.c:296-296 | following a chain and zeroing its entries frees exactly its clusters |
| `FatChain.ReleaseUndoesGrowth` | src/kernel64/fs/exfat.c:296-296 | releasing a chain grown from free clusters restores the FAT |
| `FileData.ClusterSlice` | src/kernel64/fs/exfat.c:152-164 | the bytes of cluster `k` of a chain are the bytes of the content from `k` times the cluster size on |
| `FileData.SpreadIsSplice` | src/kernel64/fs/exfat.c:242-259 | writing piece by piece along a chain is splicing the buffer into the content |
| `FileData.SpreadFrame` | src/kernel64/fs/exfat.c:242-259 | the writing loop changes no cluster off the chain |
| `FileData.SpliceIsOverlaid` | src/kernel64/fs/exfat.c:242-261 | for every content, the splice and the raised size make the buffer lie over the chain's bytes; zeros behind the end stay zeros |
| `FileData.OverlaidIsWrittenIff` | src/kernel64/fs/exfat.c:260-261 | that is the old bytes, zero-filled, with the buffer spliced in, exactly when the chain's bytes between the old end and the offset are zero |
| `Directory.ScanJump` | src/kernel64/fs/exfat.c:97-125 | skipping the entries that a scan has consumed loses no file |
| `Directory.ListedFields` | src/kernel64/fs/exfat.c:95-121 | what the listing says of a file is what its entries say, whoever wrote them: a directory exactly when bit 4 of the attributes is set, first cluster and size of the stream entry, and the names |
| `Directory.FileIsListed` | src/kernel64/fs/exfat.c:89-98 | every file entry in front of the end mark is listed |
| `Directory.NameIsLetters` | src/kernel64/fs/exfat.c:106-115 | a file name is the non-zero units of its name entries in order, non-ASCII as question marks, cut at 63; when removing, only the units up to the first zero of each entry |
| `Directory.AddListsFile` | src/kernel64/fs/exfat.c:271-284 | for every directory, a scan after adding a file lists the earlier files, then that name, its cluster and size 0 |
| `Directory.FileSetFields` | src/kernel64/fs/exfat.c:277-282 | the new entry set has the types, secondary count, attribute, name length, first cluster and size 0 that sections 7.4, 7.6 and 7.7 of the exFAT specification give |
| `Directory.ShownExactly` | src/kernel64/fs/exfat.c:106-121 | a name decodes to itself exactly when it has at most 63 characters, all ASCII |
| `Directory.ShownIs` | src/kernel64/fs/exfat.c:106-121 | a created name is shown character by character, non-ASCII as question marks, cut at 63 |
| `Directory.LongNameIsCut` | src/kernel64/fs/exfat.c:106-121 | a name of 64 letters is shown without its last |
| `Directory.SetSizeLists` | src/kernel64/fs/exfat.c:193-204 | rewriting a stream entry's size changes that file's size in the listing and nothing else |
| `Directory.SetStreamLists` | src/kernel64/fs/exfat.c:195-201 | the update of a stream entry changes the file's size and, if a valid and different one is given, its first cluster in the listing, and nothing else |
| `Directory.EraseLists` | src/kernel64/fs/exfat.c:297-298 | zeroing an entry set cuts the listing off at that file |
| `Directory.EraseBlanks` | src/kernel64/fs/exfat.c:291-298 | removing zeroes exactly the file entry, the stream entry and the run of name entries behind them |
| `Directory.FindCluster` | src/kernel64/fs/exfat.c:193-202 | the first file whose stream entry holds a given first cluster |
| `Directory.Find` | src/kernel64/fs/exfat.c:290-293 | the first file whose rebuilt name equals the wanted one |
| `FileStore.RootIsTakenIff` | src/kernel64/fs/exfat.c:183-186 | the root directory's cluster is handed out, and zeroed, exactly when its FAT entry is zero and none below is free |
| `FileStore.RootJoinsFileIff` | src/kernel64/fs/exfat.c:218-223 | over a whole extension it joins the file exactly when its entry is zero and more clusters are wanted than are free below it |
| `FileStore.CreateAppends` | src/kernel64/fs/exfat.c:267-286 | creating keeps the volume well formed and appends one empty file; a failed call changes nothing |
| `FileStore.CreateSucceeds` | src/kernel64/fs/exfat.c:267-276 | creating succeeds exactly for a non-empty name whose entry set fits, with a free cluster |
| `FileStore.GrowKeepsFiles` | src/kernel64/fs/exfat.c:210-225 | lengthening one file's chain, also only in part, keeps the volume well formed and changes no file |
| `FileStore.WriteSplices` | src/kernel64/fs/exfat.c:227-264 | for every offset and every well-formed volume: a successful write lays the buffer over the bytes on the file's chain, no other file changes, and a failed write changes none |
| `FileStore.WriteIsExpectedIff` | src/kernel64/fs/exfat.c:227-264 | the file is its old bytes, zero-filled up to the offset, with the buffer spliced in, exactly when the chain's bytes between its end and the offset are zero |
| `FileStore.WriteSucceeds` | src/kernel64/fs/exfat.c:229-234 | a write of nothing does nothing; any other succeeds exactly when the missing clusters are free, and then the chain has exactly the clusters that the bytes take, or those it had if they are more; if it fails no cluster is left free |
| `FileStore.ClusterArithmetic` | src/kernel64/fs/exfat.c:232-237 | the cluster of a byte, the place in it and the number of clusters that bytes take are the source's divisions |
| `FileStore.ExtraAllocationIff` | src/kernel64/fs/exfat.c:230-241 | the search for the first cluster gets to the end of the ensured chain, and allocates, exactly when the 64-bit end or its rounding wraps |
| `FileStore.WrappedWriteFills` | src/kernel64/fs/exfat.c:230-241 | then the write fails, no cluster is free any more, and the volume is as after a write that asked for too many |
| `FileStore.LastOffsetWraps` | src/kernel64/fs/exfat.c:230-232 | one byte at offset 2^64 - 1 asks for no cluster at all |
| `FileStore.SliceHas` | src/kernel64/fs/exfat.c:152-164 | a read returns byte for byte all the bytes of the request that the file has, and no other |
| `FileStore.ReadBack` | src/kernel64/fs/exfat.c:152-164 | on every well-formed volume, after every successful write, reading where it went returns what was written |
| `FileStore.ReadElsewhere` | src/kernel64/fs/exfat.c:152-164 | elsewhere are the old bytes, and in a gap what the chain held there, or zeros where it is new |
| `FileStore.UnlinkCutsOff` | src/kernel64/fs/exfat.c:288-305 | removing keeps the volume well formed, succeeds exactly for a listed name, frees exactly the clusters of that file, and cuts the list off there |
| `FileStore.UnlinkRemovesOne` | src/kernel64/fs/exfat.c:297-298 | exactly one name goes exactly when it was listed last |
| `FileStore.UnlinkLosesClusters` | src/kernel64/fs/exfat.c:296-298 | the clusters of the files behind a removed one stay taken |
| `FileStore.FirstClusterFinds` | src/kernel64/fs/exfat.c:193-202 | on a well-formed volume the first cluster finds exactly the file it belongs to |
| `FileRuns.StepRefines` | src/kernel64/fs/exfat.c:227-305 | each call, a refused write to a directory included, does to the volume what it does to a list of named byte sequences exactly when it uncovers no old bytes; from a clean volume none does, and it stays clean |
| `FileRuns.RunRefines` | src/kernel64/fs/exfat.c:227-305 | over every run of create, write at any offset and unlink, failed calls included, chains stay disjoint, acyclic and ended, and the volume behaves as that list while no write uncovers old bytes, which none does from a clean volume |
| `FileRuns.LifeLeavesNoTrace` | src/kernel64/fs/exfat.c:227-305 | create under an absent name, any number of writes, unlink while last: the whole FAT and the listing are as before |
| `FileCases.EmptyVolumeIsGood` | src/kernel64/fs/exfat.c:74-78 | an empty volume of any size is well formed, clean and without files |
| `FileCases.UnlinkLosesSecondFile` | src/kernel64/fs/exfat.c:288-305 | of two files the first is removed: both are gone from the listing, and the second's cluster stays taken |
| `FileCases.WriteUncoversOldBytes` | src/kernel64/fs/exfat.c:242-261 | a volume on which a byte written at offset 2 of an empty file leaves two old bytes in front of it |
| `FileCases.LastOffsetTakesCluster` | src/kernel64/fs/exfat.c:230-241 | a byte written at offset 2^64 - 1 fails, changes no file and takes the free cluster |
| `FileCases.UnmarkedRootIsTaken` | src/kernel64/fs/exfat.c:183-186 | on an all-zero FAT the first file gets the root directory's cluster |
| `FileCases.UnmarkedRootJoinsFile` | src/kernel64/fs/exfat.c:218-223 | a file that grows takes an unmarked root directory |
| `Layout.FatWrite` | src/kernel64/fs/exfat.c:78-78 | writing one FAT entry on the device changes that entry of the decoded FAT and no cluster |
| `Layout.ClusterWrite` | src/kernel64/fs/exfat.c:74-76 | writing one cluster on the device changes that cluster and no FAT entry |
| `Layout.ClusterPosIs` | src/kernel64/fs/exfat.c:74-74 | cluster c starts c - 2 clusters behind the start of the heap |
| `Layout.Capacity` | src/kernel64/fs/exfat.c:74-76 | all clusters of such a device together are smaller than 2^63 bytes, as well-formed volumes require |
| `DirBuffer.Scan` | src/kernel64/fs/exfat.c:85-131 | the scan of a directory buffer returns its first files up to the cap |
| `DirBuffer.ReadName` | src/kernel64/fs/exfat.c:106-115 | the name that file name entries spell, and where they end |
| `DirBuffer.FindEnd` | src/kernel64/fs/exfat.c:271-271 | the slot of the end mark |
| `DirBuffer.PutFile` | src/kernel64/fs/exfat.c:277-284 | the buffer gets the entry set of the new file and an end mark, other entries stay |
| `DirBuffer.FindStream` | src/kernel64/fs/exfat.c:192-204 | finds the file with a given first cluster, slot by slot, exactly when the listing has one |
| `DirBuffer.FindFile` | src/kernel64/fs/exfat.c:290-303 | finds the file of a given name exactly when the listing has one |
| `DirBuffer.Erase` | src/kernel64/fs/exfat.c:297-298 | zeroes exactly the entry set |
| `ExFat.Volume.FatGet` | src/kernel64/fs/exfat.c:77-77 | the FAT entry of a cluster |
| `ExFat.Volume.FatSet` | src/kernel64/fs/exfat.c:78-78 | sets one FAT entry; the rest of the volume stays |
| `ExFat.Volume.ReadCluster` | src/kernel64/fs/exfat.c:75-75 | the bytes of a cluster |
| `ExFat.Volume.WriteCluster` | src/kernel64/fs/exfat.c:76-76 | sets one cluster; the rest of the volume stays |
| `ExFat.Volume.FatAlloc` | src/kernel64/fs/exfat.c:183-186 | takes the lowest free cluster, ends it and zeroes it, or returns 0 |
| `ExFat.Volume.CountChain` | src/kernel64/fs/exfat.c:215-216 | counts a chain and finds its last cluster |
| `ExFat.Volume.AppendClusters` | src/kernel64/fs/exfat.c:217-224 | appends clusters until enough or none is free |
| `ExFat.Volume.EnsureChainLength` | src/kernel64/fs/exfat.c:210-225 | the whole operation, starting a chain where there is none |
| `ExFat.Volume.Seek` | src/kernel64/fs/exfat.c:153-153 | the cluster that holds an offset inside the file; the early exit of reading is unreachable |
| `ExFat.Volume.SeekGrow` | src/kernel64/fs/exfat.c:236-241 | the search of a write, allocating branch included: the cluster on the chain, or the chain extended, or failure when none is free |
| `ExFat.Volume.NextCluster` | src/kernel64/fs/exfat.c:253-258 | the next cluster; the allocation inside the writing loop is unreachable |
| `ExFat.Volume.ReadAlong` | src/kernel64/fs/exfat.c:154-163 | the reading loop copies the slice of the content |
| `ExFat.Volume.WriteAlong` | src/kernel64/fs/exfat.c:242-259 | the writing loop spreads the buffer along the chain |
| `ExFat.Volume.Open` | src/kernel64/fs/exfat.c:133-149 | for every name, given with a leading slash or without: the first of the first 32 listed files with that name, and nothing exactly when there is none; the handle has the first cluster and size of its entries and is a directory exactly when bit 4 of the attributes is set; the root directory for an empty path or a slash |
| `ExFat.Volume.Read` | src/kernel64/fs/exfat.c:152-164 | returns exactly the requested slice of the file, clipped to its size; -1 for a directory |
| `ExFat.Volume.UpdateStream` | src/kernel64/fs/exfat.c:189-207 | rewrites the size, and the first cluster if a valid and different one is given, of the file found by its first cluster, and nothing else |
| `ExFat.Volume.Write` | src/kernel64/fs/exfat.c:227-264 | for every 64-bit offset does what `FileStore.Write` says, keeps the volume well formed and the handle up to date; a directory is refused and nothing changes |
| `ExFat.Volume.Create` | src/kernel64/fs/exfat.c:267-286 | for every name, given with a leading slash or without, does what `FileStore.Create` says of the name |
| `ExFat.Volume.FreeChain` | src/kernel64/fs/exfat.c:295-296 | frees the clusters of a chain |
| `ExFat.Volume.Unlink` | src/kernel64/fs/exfat.c:288-305 | for every name, given with a leading slash or without, does what `FileStore.Unlink` says of the name |
| `ExFat.NamesIff` | src/kernel64/fs/exfat.c:137-137 | every path names exactly one file: what is behind its slash, or itself if it begins with none |
| `Bytes.Int32Iff` | src/kernel64/fs/exfat.c:164-164 | a length returned as a 32-bit integer is the one signed 32-bit value that equals it modulo 2^32 |
| `ExFat.EmptyDisk` | src/kernel64/fs/exfat.c:74-78 | for every layout that fits, a zeroed RAM disk with the root directory marked is a valid, empty volume |
| `ExFat.SmallLayoutOk` | src/kernel64/fs/exfat.c:74-78 | a layout of 128 sectors that fits |
| `FrameMap.LowestRun` | src/kernel/mm/pmm.c:246-267 | the lowest run of free frames of a given length, and none exactly when there is none |
| `FrameMap.BoundedSearch` | src/kernel/mm/pmm.c:281-305 | a search below a limit returns the lowest run of all if that ends there, and fails otherwise |
| `FrameMap.CountFill` | src/kernel/mm/pmm.c:229-243 | marking frames changes the free count by their number |
| `FrameMap.FillGain` | src/kernel/mm/pmm.c:203-214 | marking frames free raises the count by their number exactly when all were in use |
| `FrameMap.GiveBack` | src/kernel/mm/pmm.c:269-279 | giving back a run that was free when it was taken restores the bitmap |
| `Pmm.SpanCovers` | src/kernel/mm/pmm.c:229-243 | reserving takes exactly the frames with a byte of the range, if no sum wraps |
| `Pmm.WrappedSpan` | src/kernel/mm/pmm.c:232-233 | if one wraps, it takes at most the frame that the range starts in |
| `Pmm.SpanExactIff` | src/kernel/mm/pmm.c:229-243 | it takes exactly the frames with a byte of the range exactly when no sum wraps, the range starts behind the bitmap, or it starts in the last frame and its wrapped end lies there too |
| `Pmm.LongReserveMisses` | src/kernel/mm/pmm.c:229-243 | a reservation of nearly the whole address space that misses the second frame |
| `Pmm.EmptySpanIff` | src/kernel/mm/pmm.c:232-242 | a reservation of no bytes takes a frame exactly when it starts inside one |
| `Pmm.EmptyReserveTakes` | src/kernel/mm/pmm.c:232-242 | such a reservation |
| `Pmm.FreeSpanCovers` | src/kernel/mm/pmm.c:269-279 | for any address, freeing gives back exactly `count` frames from the address's own on, as far as the bitmap goes |
| `Pmm.KeptOk` | src/kernel/mm/pmm.c:38-47 | disjoint regions of whole frames are kept, cut and dropped into regions of that kind |
| `Pmm.KeptCovers` | src/kernel/mm/pmm.c:38-47 | while the table has room, the kept regions cover exactly the reported bytes below 4 GiB |
| `Pmm.RegionFreed` | src/kernel/mm/pmm.c:199-214 | freeing one more region frees exactly its frames, and as many as it has exactly when it shares none with an earlier one |
| `Pmm.TwiceIsNotApart` | src/kernel/mm/pmm.c:38-47 | a region that is reported twice is kept twice |
| `Pmm.CountedTwice` | src/kernel/mm/pmm.c:199-214 | start-up with it leaves a counter that is too high |
| `Pmm.ZeroMeansNone` | src/kernel/mm/pmm.c:246-267 | while frame 0 is not free, the result 0 means exactly that there is no run |
| `Pmm.FrameAllocator.Alloc` | src/kernel/mm/pmm.c:246-267 | takes the lowest run and returns its address, or 0; the counter follows, and the ledger makes a step of `FrameRuns` |
| `Pmm.FrameAllocator.AllocBelow` | src/kernel/mm/pmm.c:281-305 | takes that same run when it ends at or below the limit, or returns 0; the ledger makes a step |
| `Pmm.FrameAllocator.Reserve` | src/kernel/mm/pmm.c:229-243 | takes the frames of the range, whoever has them; the counter follows, and the ledger makes a step |
| `Pmm.FrameAllocator.Free` | src/kernel/mm/pmm.c:269-279 | gives frames back as far as the bitmap goes; the counter follows, and the ledger makes a step |
| `Pmm.FrameAllocator.AddRegion` | src/kernel/mm/pmm.c:38-47 | keeps a region, cut off at 4 GiB, while the table has room |
| `Pmm.FrameAllocator.BuildBounds` | src/kernel/mm/pmm.c:123-153 | aligned bounds: the lowest region's start and the highest one's end, which the bitmap can always cover |
| `Pmm.FrameAllocator.MarkRange` | src/kernel/mm/pmm.c:159-172 | sets or clears exactly the bits of the frames of any range, in 64-bit sums |
| `Pmm.FrameAllocator.Init` | src/kernel/mm/pmm.c:189-222 | afterwards the bitmap spans the regions tightly, a frame is in use exactly when it is outside the regions, the first one, or below 1 MiB, and the counter is right exactly when no two regions overlap |
| `FrameRuns.StepKeeps` | src/kernel/mm/pmm.c:229-305 | every call keeps claimed frames in use and new allocations off earlier claims |
| `FrameRuns.LiveAllocationsApart` | src/kernel/mm/pmm.c:229-305 | after every run, what is left of live allocations overlaps neither other allocations nor an earlier live reservation |
| `FrameRuns.OutsideCovers` | src/kernel/mm/pmm.c:269-279 | exactly the claimed frames that were not given back stay claimed, also when part of a claim is |
| `FrameRuns.RunApartIffCareful` | src/kernel/mm/pmm.c:229-243 | over a run no live allocation ever shares a frame with any claim exactly when every reservation stays off live allocations |
| `FrameRuns.LateReservationOverlaps` | src/kernel/mm/pmm.c:229-243 | a run in which a later reservation overlaps a live allocation |
| `PageTree.IndicesArePage` | src/kernel/mm/vmm.c:19-22 | the four table indices are bits 12 to 47 of the address |
| `PageTree.SamePage` | src/kernel/mm/vmm.c:19-22 | two addresses have the same indices exactly when they lie in the same page |
| `PageTree.WalkFollowsTree` | src/kernel/mm/vmm.c:24-59 | a walk through the words in memory arrives at the table that the tree has in that place |
| `PageTree.AttachKeepsTree` | src/kernel/mm/vmm.c:26-35 | a zeroed frame hung into a free entry leaves a tree of distinct frames |
| `PageTree.AttachKeepsEntries` | src/kernel/mm/vmm.c:26-35 | and changes no translation |
| `PageTree.StoreSetsEntry` | src/kernel/mm/vmm.c:88-88 | storing a leaf entry changes the translation on its own path and on no other |
| `Vmm.MappedTranslates` | src/kernel/mm/vmm.c:88-108 | for all 64-bit addresses and flags: a present mapping translates to its frame plus the offset exactly when every flag from bit 12 on is a bit of the address anyway |
| `Vmm.LeafIff` | src/kernel/mm/vmm.c:88-88 | the leaf entry is the one word whose bits below 12 are the flags' except bit 7, which is clear, and whose bits from 12 on are those set in the address or in the flags |
| `Vmm.LeafBits` | src/kernel/mm/vmm.c:88-88 | the leaf entry has these bits |
| `Vmm.PlainLeaf` | src/kernel/mm/vmm.c:88-88 | for a page address and flags below bit 12 without bit 7 it is their sum |
| `Vmm.OrSameIff` | src/kernel/mm/vmm.c:88-88 | or-ing in flags leaves the address as it is exactly when they are all set in it |
| `Vmm.LowFlagsTranslate` | src/kernel/mm/vmm.c:88-108 | flags in the low 12 bits alone never disturb the address |
| `Vmm.NoExecuteTranslatesWrong` | src/kernel/mm/vmm.c:108-108 | a mapping with the no-execute bit and the wrong translation it gets |
| `Vmm.GrewTwice` | src/kernel/mm/vmm.c:26-57 | taking frames for tables composes: old tables stay, new ones are in frames that were free, newly used frames are exactly the new tables |
| `Vmm.AllThree` | src/kernel/mm/vmm.c:24-59 | three levels make a walk: it arrives exactly when the missing tables do not outnumber the free frames, and takes exactly that many |
| `Vmm.PageTables.Descend` | src/kernel/mm/vmm.c:24-36 | one level: follow a present entry or make the table, in a tree of distinct allocated frames |
| `Vmm.PageTables.GetPte` | src/kernel/mm/vmm.c:18-60 | the leaf table of a path, made if wanted; no translation changes; no frame is lost, also on failure |
| `Vmm.PageTables.MapPage` | src/kernel/mm/vmm.c:84-91 | -1 without tables, -2 exactly when frames are short and then no translation changes, else exactly one page's translation changes, to an entry whose bits are those of the flags below bit 12, bit 7 cleared, and those of address or flags from there on; frames taken are exactly the new tables |
| `Vmm.PageTables.UnmapPage` | src/kernel/mm/vmm.c:93-100 | exactly that page loses its translation; -2 exactly when a table is missing; tables and frames stay |
| `Vmm.PageTables.VirtToPhys` | src/kernel/mm/vmm.c:102-110 | the translation, and nothing changes |
| `Vmm.PageTables.InitIdentity` | src/kernel/mm/vmm.c:67-82 | maps exactly a prefix of the pages, each to itself, as long as the free frames allow; frames taken are exactly the tables |
| `Vmm.IdentityTranslates` | src/kernel/mm/vmm.c:67-82 | then exactly the addresses of the prefix translate, each to itself |
| `Vmm.WholeIff` | src/kernel/mm/vmm.c:67-82 | the prefix is all of 4 GiB exactly when at least 2054 frames were free |
| `Identity.NextTables` | src/kernel/mm/vmm.c:74-80 | one page more needs exactly the tables on its path more |
| `PageRuns.MapSetsTranslations` | src/kernel/mm/vmm.c:84-110 | after a map call every address of the page translates to the frame plus its offset, and every other address as before |
| `PageRuns.UnmapClearsTranslations` | src/kernel/mm/vmm.c:93-110 | after an unmap call the page translates to nothing, and every other address as before |
| `PageRuns.UnmapUndoesMap` | src/kernel/mm/vmm.c:84-100 | unmapping right after mapping restores every translation exactly when the page had none |
| `PageRuns.RunIsMap` | src/kernel/mm/vmm.c:84-100 | over every run of map and unmap calls, failed ones included, the tables are a finite map, and frames taken are exactly the new tables, at most three a call |
| `PageRuns.OthersKeep` | src/kernel/mm/vmm.c:18-60 | others that write to, take and give back frames that are not tables change no translation |
| `PageRuns.SharedRunIsMap` | src/kernel/mm/vmm.c:84-100 | over every run in which others write, allocate and free between the calls, the tables stay a tree in used frames, are what the calls make of a finite map, and are as many more as the frames the calls took |
| `PageRuns.StartHolds` | src/kernel/mm/vmm.c:67-82 | the identity map that start-up builds is a finite map |
| `PageRuns.StartThenRun` | src/kernel/mm/vmm.c:67-100 | after start-up and any run of calls the tables are what the calls make of the first pages mapped to themselves |
| `HeapBlocks.LiveApart` | src/kernel/mm/kmalloc.c:8-12 | live payloads lie in the heap and, with their headers, apart |
| `HeapBlocks.LiveAligned` | src/kernel/mm/kmalloc.c:43-52 | live payloads are as far from a multiple of 16 as the heap's start |
| `HeapBlocks.LiveDetermines` | src/kernel/mm/kmalloc.c:62-77 | a merged heap is determined by its size and its live allocations: the free blocks are exactly the gaps |
| `HeapBlocks.AllFreed` | src/kernel/mm/kmalloc.c:62-77 | a merged heap without live allocations is one free block |
| `HeapBlocks.TakeKeeps` | src/kernel/mm/kmalloc.c:30-52 | an allocation keeps the heap tiled and merged and adds exactly one live payload, of exactly the rounded size when the block was as large or at least 48 bytes larger, else of the whole block, which is less than 48 bytes more |
| `HeapBlocks.TakenBlock` | src/kernel/mm/kmalloc.c:30-52 | the taken block, the free block behind it if it was cut, and all others as they were |
| `HeapBlocks.NoFit` | src/kernel/mm/kmalloc.c:45-56 | first fit fails exactly when no gap between live allocations holds the request and its header |
| `HeapBlocks.MergeKeeps` | src/kernel/mm/kmalloc.c:66-76 | one coalescing pass merges every pair of free neighbours, keeping the tiling and the live payloads |
| `HeapBlocks.ReleaseKeeps` | src/kernel/mm/kmalloc.c:62-77 | a release keeps the heap tiled and merged and removes exactly that payload |
| `HeapBlocks.ReleaseUndoesTake` | src/kernel/mm/kmalloc.c:62-77 | releasing what was just allocated restores the heap |
| `Kmalloc.AlignUpCovers` | src/kernel/mm/kmalloc.c:14-14 | rounding up covers the request exactly when it does not wrap |
| `Kmalloc.FirstBlockFitsIff` | src/kernel/mm/kmalloc.c:25-25 | the first block covers the heap exactly when the heap is no smaller than a header |
| `Kmalloc.TinyHeap` | src/kernel/mm/kmalloc.c:25-25 | a heap of 16 bytes and the block it begins with |
| `Kmalloc.Heap.Init` | src/kernel/mm/kmalloc.c:21-28 | one free block |
| `Kmalloc.Heap.SplitBlock` | src/kernel/mm/kmalloc.c:30-41 | leaves the block at exactly the rounded size when it was as large or at least 48 bytes larger, else as it was; the list stays linked |
| `Kmalloc.Heap.Kmalloc` | src/kernel/mm/kmalloc.c:43-56 | takes the first block that fits, cut to the rounded size when at least 48 bytes would be left, or returns 0 and changes nothing |
| `Kmalloc.Heap.Coalesce` | src/kernel/mm/kmalloc.c:66-76 | the list becomes that of the merged blocks |
| `Kmalloc.Heap.Kfree` | src/kernel/mm/kmalloc.c:62-77 | releases the block of a live pointer; 0 does nothing |
| `Kmalloc.Heap.UsableSize` | src/kernel/mm/kmalloc.c:79-82 | the payload size |
| `HeapRuns.Begin` | src/kernel/mm/kmalloc.c:21-28 | the fresh heap satisfies the invariant of all runs |
| `HeapRuns.RunKeeps` | src/kernel/mm/kmalloc.c:21-77 | over every run the blocks tile the heap, free neighbours are merged, used blocks are exactly the live allocations, and each is less than 48 bytes larger than its rounded request |
| `HeapRuns.LivePayloads` | src/kernel/mm/kmalloc.c:43-56 | live payloads are 16-aligned when the heap is, in the heap, pairwise disjoint, as large as asked for exactly when rounding did not wrap, and less than 48 bytes larger than the rounded request |
| `HeapRuns.MallocFailsIff` | src/kernel/mm/kmalloc.c:43-56 | after every run `kmalloc` fails exactly when no gap can hold the rounded request |
| `HeapRuns.AllFreedIsInitial` | src/kernel/mm/kmalloc.c:62-77 | once everything is freed the heap is the single initial block |
| `HeapRuns.WrappedRequest` | src/kernel/mm/kmalloc.c:43-52 | a request that wraps and the empty block it gets |
| `Terminal.PutAgrees` | src/kernel64/console.c:133-183 | every character keeps history and cells the last lines of the unbounded terminal, with the cursor in place |
| `Terminal.TypeEffect` | src/kernel64/console.c:158-183 | for every character, where the cursor goes, and that only the cell under it is written, or a blank line added |
| `Terminal.RunAgrees` | src/kernel64/console.c:116-183 | so does every stream of output, colour and view changes since a clear, with min(scrolled, 512) history rows and the offset never above them |
| `Terminal.ClearAgrees` | src/kernel64/console.c:116-127 | a cleared console agrees with an unbounded terminal of blank lines |
| `Terminal.WindowAt` | src/kernel64/console.c:63-94 | the view, row by row: the newest history rows, then the top of the cells |
| `Terminal.ScrollKeepsLine` | src/kernel64/console.c:139-146 | a scroll keeps the absolute line that the offset denotes exactly when the offset is positive and below 512 |
| `Terminal.ScrollPinsView` | src/kernel64/console.c:141-146 | less than a screen up, a scroll leaves the display as it is |
| `Terminal.ScrollMovesView` | src/kernel64/console.c:63-69 | a screen or more up, or live, it moves the display by one row |
| `Terminal.FollowedViewMoves` | src/kernel64/console.c:141-146 | a screen whose offset follows a scroll while its display moves |
| `Terminal.FeedKeepsViewIff` | src/kernel64/console.c:160-162 | a line feed keeps the display exactly when it does not scroll, the view is less than a screen up, or the rows that move in are those that were there |
| `Terminal.FeedMovesView` | src/kernel64/console.c:160-162 | a screen that a line feed leaves stale |
| `Terminal.PageDownUndoesUp` | src/kernel64/console.c:285-298 | a page down undoes a page up exactly when the page up was not cut short, or began at the live view |
| `Terminal.LookKeeps` | src/kernel64/console.c:285-301 | the view controls change only the offset and never beyond the history |
| `Terminal.LookDenotes` | src/kernel64/console.c:285-301 | against the unbounded terminal: home denotes the oldest line kept, end the top of the live window, which is then on display; a page is rows - 1 lines, or 1 on a one-row screen, and stops at either |
| `Terminal.DisplayIs` | src/kernel64/console.c:63-94 | the display is the lines of the unbounded terminal from the denoted one on as long as that is at most a screen above the live window; further up it stays one screen above |
| `Terminal.HomeShowsLater` | src/kernel64/console.c:300-300 | a screen whose oldest line is denoted and not on display |
| `Console.SlotAfterPush` | src/kernel64/console.c:137-140 | rows keep their ring slots when one is pushed, at every head position |
| `Console.Console.Clear` | src/kernel64/console.c:116-131 | blank cells, no history, live view |
| `Console.Console.RenderView` | src/kernel64/console.c:59-101 | video memory shows the window of history and cells, for every ring head |
| `Console.Console.Flush` | src/kernel64/console.c:103-114 | the same, with the short cut for the live view |
| `Console.Console.ScrollUp` | src/kernel64/console.c:133-156 | the top row moves into the ring, the offset follows; its clamp is unreachable |
| `Console.Console.Putc` | src/kernel64/console.c:158-183 | one character as `Terminal.Put`; a drawn view stays drawn, and after a line feed exactly when the old screen is one whose view it keeps |
| `Console.Console.Write` | src/kernel64/console.c:230-230 | a string, character by character |
| `Console.Console.SetColor` | src/kernel64/console.c:231-231 | the colour's high four bits are those of the background, its low four those of the foreground, of which only the low four count; nothing else changes |
| `Console.Console.Turn` | src/kernel64/console.c:285-301 | the view denotes the line of the unbounded terminal that the control asks for: oldest kept, live, a page up or down; and it is redrawn |
| `LineEdit.EditAllShort` | src/kernel64/input.c:145-216 | the edited line always stays shorter than the buffer |
| `LineEdit.KeyShows` | src/kernel64/input.c:151-213 | every key but Enter: if the line showed and the new one fits, the new one shows, and nothing else on the screen changes, except that PgUp, PgDn, Ctrl+Home and Ctrl+End turn the view |
| `LineEdit.ViewKeys` | src/kernel64/input.c:152-172 | those four keys leave the line alone and denote the line a page up, a page down, the oldest kept, and the top of the live window |
| `LineEdit.EditEffect` | src/kernel64/input.c:154-213 | what every key does to the text and to the cursor's place in it |
| `LineEdit.TypedText` | src/kernel64/input.c:204-212 | typing a text gives that text, cut to one character less than the buffer |
| `LineEdit.SessionShows` | src/kernel64/input.c:145-216 | so over every session while the line fits: the row is prompt, line, blanks with the cursor at prompt plus cursor |
| `LineEdit.RoomForAll` | src/kernel64/input.c:205-205 | every line fits when the row has room for the prompt and a full buffer |
| `LineEdit.CharShowsIff` | src/kernel64/input.c:204-212 | a typed character leaves the cursor in its place exactly when the longer line still fits |
| `LineEdit.FullRowLosesCursor` | src/kernel64/input.c:204-212 | a row that its first character fills |
| `Input.Reprint` | src/kernel64/input.c:140-143 | sends the tail and as many backspaces |
| `Input.EraseBefore` | src/kernel64/input.c:174-189 | backspace, on the buffer and on the screen |
| `Input.EraseAt` | src/kernel64/input.c:190-203 | delete |
| `Input.Insert` | src/kernel64/input.c:204-212 | insertion, if there is room |
| `Input.Press` | src/kernel64/input.c:151-213 | every key does to buffer and cursor what it does to the ideal line, with the stated echo |
| `Input.ReadLine` | src/kernel64/input.c:145-216 | for every key sequence the buffer up to the length is the ideal editor's line, cursor <= length < max |
| `Block.BlockDevice.Read` | src/kernel64/block/ramdisk.c:12-47 | for all 64-bit sector numbers, exactly the bytes that the code's arithmetic leads to, or -1 exactly when a bound check on the way down fails |
| `Block.BlockDevice.Write` | src/kernel64/block/ramdisk.c:48-56 | for all 64-bit sector numbers, exactly those bytes of the RAM disk change, or -1 |
| `Block.BlockDevice.InsidePassesIff` | src/kernel64/block/block.c:34-45 | without a wrap, the top bound check of a partition inside its parents is the only one that can fail |
| `Block.BlockDevice.IsolatedIff` | src/kernel64/block/block.c:34-45 | a request that a partition accepts stays inside it exactly when sector number plus count does not wrap |
| `Block.BlockDevice.StaysInMemoryIff` | src/kernel64/block/ramdisk.c:28-31 | a request that all checks accept stays in the RAM disk's memory exactly when its last byte address does not wrap |
| `Block.BlockDevice.LastAddressEscapes` | src/kernel64/block/ramdisk.c:50-54 | two sectors from number 2^55 - 1 on are accepted and start 512 bytes in front of the disk |
| `Block.BlockDevice.WrappedTarget` | src/kernel64/block/block.c:37-44 | in 64-bit addresses, wrapped sector numbers are the sectors in front of the device, however deep partitions are stacked |
| `Block.BlockDevice.LastNumberEscapes` | src/kernel64/block/block.c:40-45 | sector number 2^64 - 1 of a partition is the sector in front of it |
| `Block.BlockDevice.WriteInside` | src/kernel64/block/block.c:40-45 | a write splices the partition's bytes and touches nothing outside it |
| `DevFs.ClipIsWanted` | src/kernel64/fs/devfs.c:92-92 | a request is clipped to the device exactly when its end does not wrap or it begins behind the end |
| `DevFs.WantedHas` | src/kernel64/fs/devfs.c:88-116 | the bytes wanted are those of the request that the device has |
| `DevFs.WrappedRequestReadsNothing` | src/kernel64/fs/devfs.c:92-92 | a request that wraps and asks for nothing |
| `DevFs.ReadWrapped` | src/kernel64/fs/devfs.c:88-116 | the same through `Read`: the last byte is wanted and none is returned |
| `DevFs.ReadBytes` | src/kernel64/fs/devfs.c:93-114 | head, middle chunks and tail together copy exactly the slice |
| `DevFs.WriteBytes` | src/kernel64/fs/devfs.c:123-143 | head, middle chunks and tail together splice exactly the bytes |
| `DevFs.Read` | src/kernel64/fs/devfs.c:88-116 | any offset and length: exactly that slice, clipped |
| `DevFs.Write` | src/kernel64/fs/devfs.c:118-145 | any offset and length: exactly those bytes of the RAM disk change, none outside the device |
| `Threads.StepKeeps` | src/kernel64/sched/sched.c:28-91 | every operation keeps each created thread exactly one of current, queued once, or finished |
| `Threads.RunKeeps` | src/kernel64/sched/sched.c:28-91 | so does every run |
| `Threads.FromTheStart` | src/kernel64/sched/sched.c:16-24 | and so every state reachable from start-up |
| `Threads.HaltsWhenAllDone` | src/kernel64/sched/sched.c:43-49 | the exit path halts exactly when every created thread has finished |
| `Threads.CreatesCount` | src/kernel64/sched/sched.c:55-70 | over every run that has not halted, as many threads as were created, up to 8 |
| `Threads.FirstCreatedStarts` | src/kernel64/sched/sched.c:55-91 | before the start threads queue up in the order of their creation; the start runs the first |
| `Threads.FirstComeFirstServed` | src/kernel64/sched/sched.c:28-91 | over every run, the threads whose turn has come followed by the queue are the threads that joined it, in that order, and the processor belongs to the last whose turn came |
| `Threads.DoneExactlyOnce` | src/kernel64/sched/sched.c:43-52 | a thread is finished exactly when it was the running one at an exit, and none exits twice |
| `Threads.TurnComes` | src/kernel64/sched/sched.c:72-82 | a thread at position k stays queued for k switches and is current after exactly k + 1, whatever is created or finishes |
| `Threads.RoundRobin` | src/kernel64/sched/sched.c:72-82 | as many yields as threads in turn restore the state |
| `Sched.Scheduler.Enqueue` | src/kernel64/sched/sched.c:28-32 | the linked queue gets the thread at its end |
| `Sched.Scheduler.Dequeue` | src/kernel64/sched/sched.c:34-36 | the linked queue loses its first thread |
| `Sched.Scheduler.Create` | src/kernel64/sched/sched.c:55-70 | the new thread, numbered by the count, is last in the queue, the count is one more, nothing else changes; for the ninth -1 and no change |
| `Sched.Scheduler.Yield` | src/kernel64/sched/sched.c:72-82 | the running thread goes to the end of the queue and its head runs; the head is never the current thread |
| `Sched.Scheduler.Exit` | src/kernel64/sched/sched.c:43-52 | the running thread joins the finished ones and the head of the queue runs, or the system halts exactly when the queue is empty |
| `Sched.Scheduler.Start` | src/kernel64/sched/sched.c:84-91 | the head of the queue leaves it and runs, unless a thread runs already |

## Left out

- Mounting (boot sector fields) and formatting: a layout with 512-byte sectors, the FAT before the cluster heap and every FAT entry backed by a cluster on the device is given.
- ExFat.Volume.Write: requires one up-to-date handle for the file, and a well-formed volume, on which every listed file has a stream entry with a first cluster of at least 2 and a name that scanning and removing rebuild alike; a root directory entry in the FAT that is not zero; and a buffer smaller than 2^63 bytes; scratch memory and device transfers succeed.
- ExFat.Volume.Open: a null path is not modelled; `exfat_stat` is the same search, `exfat_readdir` a stub.
- Block.BlockDevice.Read: what an accepted request that leaves the RAM disk's memory does to that memory is not modelled, nor by Write; missing operation tables and null pointers are not modelled.
- DevFs.Read: requires partitions inside their parents and a clipped length below 2^31, as does Write; failing scratch allocations and failing device transfers are not modelled.
- Pmm.FrameAllocator.Init: takes the regions as reported, of whole frames once cut to 4 GiB; the walk over the boot loader's tags, and its fallback that may end inside a frame, are not modelled, nor are the statistics of total memory.
- Vmm.PageTables.MapPage: the TLB is not modelled; physical memory is accessed directly, not through the mapping.
- Vmm.PageTables.InitIdentity: is called once, without tables.
- Kmalloc.Heap.Init: requires a heap of at least one header that ends 16 bytes below 2^64, with the 32-byte header of a 64-bit build; headers are kept apart from the payload bytes, so a caller that writes outside its payload is not modelled.
- Kmalloc.Heap.Kfree: requires a live pointer or 0.
- Console.Console.Putc: cells are pairs of an ASCII character and a colour in two-dimensional arrays; the row-major index arithmetic, the hardware cursor register, the serial mirror and a video pitch smaller than the width are not modelled. Geometry is at most 80 by 25.
- Input.ReadLine: key events come as a sequence; when they end before Enter the method returns where the source would wait. Scan code decoding is not modelled.
- LineEdit.SessionShows: states the row for lines that fit on it; how a longer line wraps is only shown to lose the cursor.
- Sched.Scheduler.Yield: a switch is a change of the current thread; stacks, registers and thread functions are not modelled.
- Partition table scanning, device registration and lookup, the virtual file system switch, the root and device file systems' listings, the shell, memory copying and memory disks: thin dispatch or short tables that would only add easy members.
- Serial, PCI, USB and PS/2 drivers, CPUID, UEFI and the loaders: hardware access.
