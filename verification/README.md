# Verified models of EnhancedFatDxe and the Dhcp6Dxe client

This project models two parts of the EDK II repository in Dafny and proves what they are for.

**The FAT file system driver (FatPkg/EnhancedFatDxe).** Four layers, each with a simple meaning that the
stateful code must agree with.

* *Disk cache* (`PageCache.dfy`, `DiskCache.dfy`). Two direct-mapped write-back page caches. Each cache and the
  device region behind it together stand for a flat byte array, the ghost field `content`. Every access is an
  access of that array, and a flush puts it on the device, in every copy of the file allocation table.
* *Cluster space* (`FatTable.dfy`, `FatEntries.dfy`, `Clusters.dfy`, `FileSpace.dfy`, `OpenFile.dfy`,
  `VolumeRuns.dfy`, `Geometry.dfy`). The packed table as a sequence of entries, next-fit allocation with an exact
  free count, growing and shrinking of chains, and what any run of these operations keeps for all files together.
* *Files* (`FileBytes.dfy`, `OpenFile.dfy`, `ReadWrite.dfy`). A file is the bytes at the places its chain names;
  seeks, reads, writes and expansion are accesses of that byte sequence and of nothing else.
* *Directories* (`LongName.dfy`, `ShortName.dfy`, `AsciiCollation.dfy`, `DirScan.dfy`, `DirIndex.dfy`,
  `Directory.dfy`). A directory is the linear scan of its 32-byte slots; the lazily loaded list with its two
  hash tables always agrees with it.

Beside them stand the task and subtask protocol of non-blocking access (`Completion.dfy`) and the tree of open
files with deletion and cleanup (`OpenFiles.dfy`).

**The DHCPv6 client (NetworkPkg/Dhcp6Dxe).** The option codec for identity associations (`Dhcp6Codec.dfy`), the
retransmission timer of section 14 of RFC 3315 (`Dhcp6Retry.dfy`), and the in-place split of an address list for
Release and Decline (`Dhcp6Release.dfy`).

## How the models are built

Classes carry the fields the driver updates. A class invariant `Valid` ties them to ghost fields that hold their
meaning, and each method states its whole effect on that meaning, so any sequence of calls acts on it as the
contracts say. Lists and hash buckets are sequences that the methods reassign. Where one operation at a time does
not say enough, value-level lemmas speak about whole runs.

`PagePos`, `StepPos`, `PageNumber` and `PageOffset` write multiplication, division and remainder by a page size as
repeated addition and subtraction; `PagePosIsProduct`, `StepPosIsProduct` and `PageNumberIsQuotient` say that this
is the same. Shifts and masks by constants are division and remainder. UINT32 and UINT16 counters wrap explicitly
where the driver relies on their width; UINTN is 64 bits wide.

Where the driver goes on with an address it should not have (an access behind the end mark of a chain, slots
behind the end of a directory file, a link in freed memory, a page far behind the volume) the method ends with an
out-parameter that says so (`stray`, `outside`, `stale`, `wild`); its contract says exactly when that is, and what
has happened until then. The status is open in that case.

Outside actors are parameters: the functions of the Unicode collation protocol and CRC32 are `Collation` with the
laws of that protocol in `Lawful`, which `AsciiCollation` shows to hold of ASCII; the system time is `Noise`, the
moments at which the firmware delivers completions are an argument of `QueueTask`, and the outcome of expanding a
directory file is an argument of `CreateDirEnt`. The case flags of short names are driver code and proved.

## Where the driver does less than it seems to promise

Each point is modelled as the code has it, with the exact condition.

* *Growth that is one cluster short.* A cluster taken by FatGrowEof stays unmarked until the next round. If exactly
  one cluster too few is free, and at least one is, the last round is served with that same cluster and the growth
  is reported as a success (`OpenFile.OFile.GrowEof`, `VolumeRuns.GrowthHonestIff`, `VolumeRuns.OneShortExample`).
* *Seeking past the end of a chain.* In the cluster that would follow the last one FatOFilePosition takes the end
  mark for a cluster: it succeeds with an address before the first cluster or, where there is no room for that, at
  the upper end of the address space (`OpenFile.OFile.OFilePosition`, `OpenFile.OFile.StrayAddress`,
  `VolumeRuns.StrayExample`). A write whose end does not wrap around stays inside the file exactly if it does not
  get there; with as many clusters as the size asks for before the call, that is unless the write is not empty and
  its growth fell one cluster short (`ReadWrite.IFile.Write`).
* *Positions near 2^64.* FatSetPosition takes any position, and FatIFileAccess adds position and length in 64 bits. If
  that wraps around, a write grows the file to the small wrapped end and then reports a corrupted volume or goes on
  outside the file, and a read is not clipped. For a file with the clusters of its size, a read inside it and a write
  whose growth is there do what they promise exactly if the sum stays below 2^64 (`ReadWrite.IFile.Write`, `ReadWrite.IFile.Read`, `ReadWrite.WrapExample`).
* *Directories grow by one cluster at a time.* A long name may need more slots than one cluster holds. A new
  entry is inside the file exactly if `HasRoom` holds (`Directory.Directory.NewEntryPos`,
  `Directory.Directory.CreateDirEnt`, `Directory.RoomRunsOutExample`).
* *The volume label.* First fit spares it in every gap but the one behind the last listed entry. It is overwritten
  exactly if no gap before is good and it lies in the slots taken there (`Directory.LabelLost`,
  `Directory.Directory.FirstFitInsertDirEnt`, `Directory.LabelLostExample`).
* *An open that fails late.* FatOFileOpen makes the handle before it flushes the file. If the flush fails the caller
  gets an error and no handle, but the handle stays and keeps the file open. Any other failure leaves no handle
  behind (`OpenFiles.VolumeFiles.Open`).
* *Leaving a subtask that is gone.* The submission loop reads the link of the subtask it has just submitted. If that
  subtask has completed by then, the link belongs to a freed node, and after the last one to a freed task. That is
  so exactly if a completion arrives together with its own submission (`Completion.Overtaken`,
  `Completion.FatTask.QueueTask`, `Completion.OvertakenExample`).
* *Boot sector checks.* FatOpenDevice does not check that the table has an entry for every cluster, nor for FAT32 that
  the cluster numbers stay below the special values (`Geometry.ShortTableExample`,
  `Geometry.TablesPastEndExample`, `Geometry.TooManyClustersExample`). `Geometry.WellSized` is exactly what is
  missing (`Geometry.WellSizedIff`); with it every accepted volume can be mounted (`Geometry.Mount`).
* *Length field of an IA.* It is a UINT16 and right exactly up to 2340 addresses (`Dhcp6Codec.IaIsFound`).
* *Releasing addresses.* With as many requests as addresses Dhcp6DepriveAddress does not look at the requests at
  all, and a repeated request makes it drop an address nobody named; its callers check only that each request is
  there. The result is the one asked for exactly if the requests are the addresses in their order, or fewer and
  different (`Dhcp6Release.IaAddresses.DepriveAddress`, `Dhcp6Release.FullRequestExample`,
  `Dhcp6Release.RepeatedRequestExample`).

## Model

| member | source | states |
|---|---|---|
| PageCache.WriteBack | FatPkg/EnhancedFatDxe/DiskCache.c:104-178 | Writing a dirty page back makes the disk region catch up; the byte array that cache and region stand for together does not change. |
| PageCache.Load | FatPkg/EnhancedFatDxe/DiskCache.c:182-235 | Loading a page into a group that holds nothing unsaved keeps the represented byte array. |
| PageCache.ReadHit | FatPkg/EnhancedFatDxe/DiskCache.c:239-296 | Bytes read from a page that is in the cache are the represented bytes at that place. |
| PageCache.WriteHit | FatPkg/EnhancedFatDxe/DiskCache.c:239-296 | Writing into a page that is in the cache and marking it dirty is exactly a write to the represented bytes. |
| PageCache.DirectWrite | FatPkg/EnhancedFatDxe/DiskCache.c:25-100 | A direct write of whole pages followed by dropping their cached copies is exactly that write to the represented bytes, whatever was dirty. |
| PageCache.OverlayStep | FatPkg/EnhancedFatDxe/DiskCache.c:25-100 | One step of overlaying a direct read: a dirty page replaces its piece of the buffer, and a page that is not dirty in its group already agrees with the represented bytes. |
| PageCache.CleanMeansOnDisk | FatPkg/EnhancedFatDxe/DiskCache.c:421-477 | If no used group is dirty the disk region is the represented byte array. |
| PageCache.PageNumberIsQuotient | FatPkg/EnhancedFatDxe/DiskCache.c:358-363 | The page number and offset computed by repeated subtraction are the shift and mask of the driver. |
| PageCache.GroupsApart | FatPkg/EnhancedFatDxe/DiskCache.c:276-280 | Pages closer together than the number of groups never evict each other. |
| DiskCache.DiskCache.OverlayDirtyPages | FatPkg/EnhancedFatDxe/DiskCache.c:25-100 | After a direct read the overlay turns what the device holds into the represented bytes of those pages. |
| DiskCache.DiskCache.DropPages | FatPkg/EnhancedFatDxe/DiskCache.c:25-100 | Exactly the groups that hold a page of the written run become unused. |
| DiskCache.DiskCache.InvalidatePages | FatPkg/EnhancedFatDxe/DiskCache.c:25-100 | A direct write with invalidation changes region and represented bytes by the same write. |
| DiskCache.DiskCache.CopyHit | FatPkg/EnhancedFatDxe/DiskCache.c:239-296 | Copying to or from a cached page is one access of the represented bytes, in both directions. |
| DiskCache.MirrorWriteCopy | FatPkg/EnhancedFatDxe/DiskCache.c:158-173 | Repeating a write once per FAT copy, one FAT size apart, changes every copy by the same write. |
| DiskCache.Volume.constructor | FatPkg/EnhancedFatDxe/DiskCache.c:480-540 | Both caches start empty and stand for what is on the device. |
| DiskCache.Volume.StoreFat | FatPkg/EnhancedFatDxe/DiskCache.c:158-173 | A write-back of the FAT cache changes the table as one write, leaves the reserved and data areas alone and keeps agreeing FAT copies in agreement. |
| DiskCache.Volume.StoreData | FatPkg/EnhancedFatDxe/DiskCache.c:158-173 | A write in the data area reaches no FAT copy and not the reserved area. |
| DiskCache.Volume.WriteCopies | FatPkg/EnhancedFatDxe/DiskCache.c:158-173 | The write loop leaves the device as the mirrored write says. |
| DiskCache.Volume.StoreCachePage | FatPkg/EnhancedFatDxe/DiskCache.c:104-178 | Saving a page succeeds, clears its dirty mark and keeps both caches and the device consistent. |
| DiskCache.Volume.LoadCachePage | FatPkg/EnhancedFatDxe/DiskCache.c:182-235 | After a load the page is in its group and both caches still stand for the same bytes. |
| DiskCache.Volume.GetCachePage | FatPkg/EnhancedFatDxe/DiskCache.c:182-235 | The page ends up in its group, an unsaved page that was there is saved first, and no represented byte changes. |
| DiskCache.Volume.AccessUnalignedCachePage | FatPkg/EnhancedFatDxe/DiskCache.c:239-296 | An access inside one page is one access of the flat byte array. |
| DiskCache.Volume.AccessAlignedPages | FatPkg/EnhancedFatDxe/DiskCache.c:381-406 | Whole pages moved directly to or from the device are one access of the flat byte array. |
| DiskCache.Volume.AccessFromPage | FatPkg/EnhancedFatDxe/DiskCache.c:381-417 | Whole pages and the over-run together are one access of the flat byte array. |
| DiskCache.Volume.AccessFromMiddle | FatPkg/EnhancedFatDxe/DiskCache.c:365-417 | Under-run, whole pages and over-run together are one access of the flat byte array. |
| DiskCache.Volume.AccessCache | FatPkg/EnhancedFatDxe/DiskCache.c:299-418 | Every successful access reads and writes exactly what a flat byte array would, through evictions, overlay and invalidation. |
| DiskCache.Volume.RawDiskIo | FatPkg/EnhancedFatDxe/Misc.c:341-434 | The range check of FatDiskIo and the device access behind it: in range the bytes move, out of range nothing changes and the error is recorded; if the 64-bit sum in the check wraps around into the volume the device refuses. |
| DiskCache.Volume.FatIo | FatPkg/EnhancedFatDxe/Misc.c:341-434 | FatDiskIo for the FAT area acts on the represented table only. |
| DiskCache.Volume.InRangeIff | FatPkg/EnhancedFatDxe/Misc.c:380-385 | The range check passes exactly inside the volume and when offset plus size wraps around into it. |
| DiskCache.Volume.DataIo | FatPkg/EnhancedFatDxe/Misc.c:341-434 | FatDiskIo for the data area: success exactly inside the volume, otherwise the error is recorded and no byte changes, unless the sum in the check has wrapped around. |
| DiskCache.Volume.DiskIo | FatPkg/EnhancedFatDxe/Misc.c:341-434 | Raw FatDiskIo: a write to the reserved area keeps both caches and the FAT mirrors valid. |
| DiskCache.Volume.StoreReserved | FatPkg/EnhancedFatDxe/Misc.c:341-434 | A raw write before the first FAT reaches neither a FAT copy nor the data area. |
| DiskCache.Volume.FlushCache | FatPkg/EnhancedFatDxe/DiskCache.c:421-477 | Flushing one cache clears its dirty flag and changes no represented byte. |
| DiskCache.Volume.VolumeFlushCache | FatPkg/EnhancedFatDxe/DiskCache.c:421-477 | Afterwards the device itself holds both byte arrays, and if the FAT copies agreed at mount every copy equals the table. |
| FatTable.DecodeEncode | FatPkg/EnhancedFatDxe/FileSpace.c:88-250 | For FAT12, FAT16 and FAT32, decoding the bytes just encoded gives the stored value. |
| FatTable.StoredIsValue | FatPkg/EnhancedFatDxe/FileSpace.c:90-144 | Every value the driver stores, sign-extended special values included, survives the entry width. |
| FatTable.SetEntry | FatPkg/EnhancedFatDxe/FileSpace.c:88-250 | Storing one entry makes it the stored value and leaves every other entry unchanged, for all three widths. |
| FatTable.SetNeighbour | FatPkg/EnhancedFatDxe/FileSpace.c:204-218 | FAT12 neighbours that share a byte keep their values. |
| FatTable.EncodeKeepsNeighbourNibble | FatPkg/EnhancedFatDxe/FileSpace.c:204-218 | The half byte that belongs to the other FAT12 entry is preserved. |
| FatTable.EncodeKeepsTopNibble | FatPkg/EnhancedFatDxe/FileSpace.c:225-228 | The reserved top four bits of a FAT32 entry are preserved. |
| FatTable.DirtyMarkKeepsEntries | FatPkg/EnhancedFatDxe/Misc.c:238-266 | Writing the volume-dirty mark into entry 1 disturbs no data entry. |
| FatTable.EntryIsDigit | FatPkg/EnhancedFatDxe/FileSpace.c:26-144 | The table of all three widths, read as one little-endian number, has the entries as its digits of 12, 16 or 32 bits, sign-extended from 12, 16 or 28: place, byte order, half bytes and masks at once. |
| FatTable.ExtendedIsSign | FatPkg/EnhancedFatDxe/FileSpace.c:120-141 | Exactly the nine largest values of an entry are read as negative numbers. |
| FatEntries.EntryTable.TableIsNumber | FatPkg/EnhancedFatDxe/FileSpace.c:26-144 | The table of a volume is that number on the disk and in the cache, digit by digit. |
| FatEntries.EntryTable.LoadFatEntry | FatPkg/EnhancedFatDxe/FileSpace.c:26-86 | The entry buffer holds the bytes of the entry, of which EntryIsDigit says which they are. |
| FatEntries.EntryTable.GetFatEntry | FatPkg/EnhancedFatDxe/FileSpace.c:90-144 | Returns the digit of the little-endian table number at that index, sign-extended, or the end mark for an index beyond the table; the table is unchanged. |
| FatEntries.EntryTable.MarkDirty | FatPkg/EnhancedFatDxe/FileSpace.c:229-235 | Setting the dirty mark once keeps every entry. |
| FatEntries.EntryTable.StoreFatEntry | FatPkg/EnhancedFatDxe/FileSpace.c:148-250 | Exactly one entry of the decoded table changes, to exactly the given value, and that digit of the table number reads as it. |
| FatEntries.EntryTable.WriteFatEntry | FatPkg/EnhancedFatDxe/FileSpace.c:236-249 | Writing the edited buffer changes one entry of the decoded table, and that digit of the table number. |
| FatEntries.EntryTable.DataIo | FatPkg/EnhancedFatDxe/Misc.c:341-434 | An access of the data area does not reach the table. |
| Clusters.NextFitComplete | FatPkg/EnhancedFatDxe/FileSpace.c:295-351 | The allocator returns the end mark exactly when no cluster is free; otherwise the lowest free cluster from the hint on, or the lowest of all if there is none. |
| Clusters.NextFitAvoids | FatPkg/EnhancedFatDxe/FileSpace.c:295-351 | With a second free cluster the unmarked tail of a growing file is not handed out again. |
| Clusters.GrowRound | FatPkg/EnhancedFatDxe/FileSpace.c:552-573 | One allocation round: the tail comes back exactly when the file already holds every cluster that was free. |
| Clusters.GrowFinish | FatPkg/EnhancedFatDxe/FileSpace.c:574-583 | Terminating the list gives a chain that has the old one as a prefix; no other entry changed and the free count dropped by the growth. |
| Clusters.GrowRolledBack | FatPkg/EnhancedFatDxe/FileSpace.c:465-588 | After a failed growth every entry is as before, up to the form of the end mark. |
| Clusters.ShrunkIsChain | FatPkg/EnhancedFatDxe/FileSpace.c:387-462 | The clusters kept by a shrink form a terminated chain. |
| FileSpace.FatVolume.constructor | FatPkg/EnhancedFatDxe/Init.c:386-406 | The state after mount, with the count and hint of the information sector. |
| FileSpace.FatVolume.CountChange | FatPkg/EnhancedFatDxe/FileSpace.c:185-195 | An exact free count stays exact under every stored entry, with no wrap-around and no missed decrement, and the hint never passes a free cluster it had not passed before. |
| FileSpace.FatVolume.SetFatEntry | FatPkg/EnhancedFatDxe/FileSpace.c:148-250 | Reserved indexes are refused; otherwise one entry changes, the count stays exact, and the hint moves down to a freed cluster and never above a free one. |
| FileSpace.FatVolume.ComputeFreeInfo | FatPkg/EnhancedFatDxe/FileSpace.c:771-814 | An untrusted count becomes the number of free entries and the hint the lowest free cluster. |
| FileSpace.FatVolume.Rescan | FatPkg/EnhancedFatDxe/FileSpace.c:327-336 | At the end of the table the hint becomes the lowest free cluster, or stays if there is none. |
| FileSpace.FatVolume.AllocateCluster | FatPkg/EnhancedFatDxe/FileSpace.c:295-351 | Terminates and returns the next free cluster from the hint, else the lowest free one, else the end mark. |
| FileSpace.FatVolume.FreeClusters | FatPkg/EnhancedFatDxe/FileSpace.c:254-291 | Exactly the entries of the chain become free. |
| OpenFile.SizeToClustersIsCeiling | FatPkg/EnhancedFatDxe/FileSpace.c:355-384 | The least number of clusters that holds the size. |
| OpenFile.OFile.constructor | FatPkg/EnhancedFatDxe/DirectoryManage.c:1279-1361 | A file opened on the chain its directory entry names. |
| OpenFile.OFile.WalkClusters | FatPkg/EnhancedFatDxe/FileSpace.c:421-435 | The walk reaches the wanted cluster exactly if the chain is long enough. |
| OpenFile.OFile.CutChain | FatPkg/EnhancedFatDxe/FileSpace.c:437-461 | Terminating at the new last cluster and freeing the rest leaves exactly the cut chain. |
| OpenFile.OFile.ShrinkEof | FatPkg/EnhancedFatDxe/FileSpace.c:387-462 | The chain is cut to what the size needs and the rest freed; a chain that is too short is reported as corrupted and left alone. |
| OpenFile.OFile.FindLastCluster | FatPkg/EnhancedFatDxe/FileSpace.c:517-546 | Counts the chain and finds its last cluster. |
| OpenFile.OFile.TakeCluster | FatPkg/EnhancedFatDxe/FileSpace.c:552-573 | One round of the allocation loop keeps the picture of a chain with one unmarked tail. |
| OpenFile.OFile.ExtendChain | FatPkg/EnhancedFatDxe/FileSpace.c:547-579 | When the loop succeeds or reports a full volume, in terms of the number of free clusters at the start. |
| OpenFile.OFile.GrowChain | FatPkg/EnhancedFatDxe/FileSpace.c:547-588 | For any file: the growth is delivered, falls one cluster short, or is undone down to the clusters the old size asks for, decided by the number of free clusters. |
| OpenFile.OFile.GrowEof | FatPkg/EnhancedFatDxe/FileSpace.c:465-588 | All outcomes of a growth request on any file: unsupported size, nothing to do, corrupted chain, growth by exactly the missing clusters, growth one cluster short, or a chain cut back with volume full. |
| OpenFile.OFile.TruncateOFile | FatPkg/EnhancedFatDxe/ReadWrite.c:676-700 | The new size with the chain cut to it, or corrupted with the chain untouched. |
| VolumeRuns.GrowthHonestIff | FatPkg/EnhancedFatDxe/FileSpace.c:547-588 | A growth is reported as done exactly when it is done, unless exactly one cluster is missing while at least one is free. |
| VolumeRuns.OneShortExample | FatPkg/EnhancedFatDxe/FileSpace.c:552-578 | A volume with one free cluster on which a growth by two clusters succeeds and delivers one. |
| VolumeRuns.StrayExample | FatPkg/EnhancedFatDxe/FileSpace.c:647-687 | The seek that follows on a FAT16 volume: byte 2048 of that file is taken to be in the root directory. |
| FileBytes.GatherAccessed | FatPkg/EnhancedFatDxe/ReadWrite.c:496-576 | An access of one contiguous disk run is the same access of the file, and nothing outside the file changes. |
| FileBytes.PlacesDistinct | FatPkg/EnhancedFatDxe/FileSpace.c:668-672 | No two bytes of a file lie at the same place. |
| FileBytes.PlacesDisjoint | FatPkg/EnhancedFatDxe/FileSpace.c:668-672 | Files on disjoint chains share no place. |
| FileBytes.RunOfClusters | FatPkg/EnhancedFatDxe/FileSpace.c:668-687 | Clusters that are consecutive on the disk and in the chain give a contiguous run, as long as it can be. |
| OpenFile.OFile.PlacesOk | FatPkg/EnhancedFatDxe/FileSpace.c:668-672 | The places of a file are distinct and inside the data area. |
| OpenFile.OFile.SeekCluster | FatPkg/EnhancedFatDxe/FileSpace.c:647-666 | Restarting or going on from the saved cluster leads to the cluster that holds the position; in the cluster past the end the walk succeeds with the end mark, and only further on is it refused. |
| OpenFile.OFile.CountRun | FatPkg/EnhancedFatDxe/FileSpace.c:677-683 | Counts consecutive clusters until the chain or the limit ends the run. |
| OpenFile.OFile.SeekRun | FatPkg/EnhancedFatDxe/FileSpace.c:647-683 | Cluster, place and maximal run for a position in the file; the end mark and the rest of one cluster just past it. |
| OpenFile.OFile.ChainPosition | FatPkg/EnhancedFatDxe/FileSpace.c:647-687 | Seek of a file with a chain: the saved cluster and position afterwards denote the cluster of the position, or the end mark. |
| OpenFile.OFile.OFilePosition | FatPkg/EnhancedFatDxe/FileSpace.c:591-688 | For every position: success inside the file and in the cluster past its end, and on success PosDisk is the address of the byte and the next PosRem bytes are contiguous there exactly if the position is not in that cluster. |
| OpenFile.EndMarkAddress | FatPkg/EnhancedFatDxe/FileSpace.c:668-670 | In 64-bit arithmetic an end mark taken for a cluster number is an address a few clusters back from the first one: before it, or at the upper end of the address space. |
| OpenFile.OFile.StrayAddress | FatPkg/EnhancedFatDxe/FileSpace.c:668-670 | A seek to the cluster past the end leaves PosDisk in no cluster of any file: the whole run is before the first cluster, or PosDisk has wrapped around and is behind the volume. |
| ReadWrite.RunIo | FatPkg/EnhancedFatDxe/ReadWrite.c:547-565 | The disk access inside a run is that access of the file. |
| ReadWrite.AccessRun | FatPkg/EnhancedFatDxe/ReadWrite.c:536-570 | One round accesses at least one byte and exactly the first part of the request, or ends at the end mark of the chain, or finds the volume corrupted; which one depends on the position alone. |
| ReadWrite.AccessOFile | FatPkg/EnhancedFatDxe/ReadWrite.c:496-576 | For every request: terminates, accesses exactly the part of it that lies in the clusters of the file and no other byte, and says exactly when the rest is a corrupted volume and when it would go on outside the file, with a status that is then open. |
| ReadWrite.GrowthKeeps | FatPkg/EnhancedFatDxe/FileSpace.c:465-588 | A growth takes no cluster of another file; a successful one keeps the old chain as a prefix, a failing one at least the clusters the old size asks for. |
| ReadWrite.Grow | FatPkg/EnhancedFatDxe/FileSpace.c:465-588 | Growth seen from the bytes of any file: status and number of clusters by the free count, old bytes where they were, and those of the old size even if the growth is refused. |
| ReadWrite.GrownFits | FatPkg/EnhancedFatDxe/ReadWrite.c:320-353 | After a growth reported as done, an access up to the new end stays in the file exactly if the growth did not fall one cluster short. |
| ReadWrite.WriteZeroPool | FatPkg/EnhancedFatDxe/ReadWrite.c:614-673 | From the old end to the new one the file becomes zeros, in portions of bounded size, with the outcome of one access of all the zeros. |
| ReadWrite.ExpandOFile | FatPkg/EnhancedFatDxe/ReadWrite.c:579-611 | The old contents followed by zeros, up to the new size or the end of the chain; for a file that has the clusters of its size the zeros leave the file exactly if the growth fell one cluster short; a refused growth changes no byte. |
| ReadWrite.PlacesCount | FatPkg/EnhancedFatDxe/FileSpace.c:668-672 | No file has more bytes in its clusters than the volume. |
| ReadWrite.WrappedReadStrays | FatPkg/EnhancedFatDxe/ReadWrite.c:308-320 | A read whose end wraps around is not clipped to the file size and runs past the end of the chain. |
| ReadWrite.IFile.SetPosition | FatPkg/EnhancedFatDxe/ReadWrite.c:68-126 | Any 64-bit position is taken; the largest one means the end of the file. |
| ReadWrite.IFile.Read | FatPkg/EnhancedFatDxe/ReadWrite.c:205-370 | Reads exactly the bytes from the position on, clipped to the chain; a position past the end is a device error; a file that has the clusters of its size is clipped to its size and read in full exactly if position plus size does not wrap around. |
| ReadWrite.IFile.GrowToEnd | FatPkg/EnhancedFatDxe/ReadWrite.c:320-351 | The growth at the start of a write, with its status in terms of the free count and the old size. |
| ReadWrite.IFile.Write | FatPkg/EnhancedFatDxe/ReadWrite.c:205-370 | Grows as far as needed, to the wrapped end if position plus length wraps around; the buffer is at the position and every old byte elsewhere is kept; for a file with the clusters of its size and no growth one cluster short, the whole buffer is written and covered by the size exactly if the end does not wrap around; without a wrap the write leaves the file exactly if it is not empty and its growth fell one cluster short. |
| ReadWrite.WrapNumbers | FatPkg/EnhancedFatDxe/ReadWrite.c:308-353 | An empty file, position 2^64 - 16 and 32 bytes: the end is 16 and asks for one cluster, and no byte of the request is in it. |
| ReadWrite.WrapExample | FatPkg/EnhancedFatDxe/ReadWrite.c:205-370 | That write takes a cluster, leaves a file of size 16 and ends as a corrupted volume without having moved a byte. |
| VolumeRuns.GrowthIsStep | FatPkg/EnhancedFatDxe/FileSpace.c:465-588 | Whatever a growth does is one of the steps the runs consist of, or two of them: a growth cut back at once. |
| VolumeRuns.StepKeepsWellFormed | FatPkg/EnhancedFatDxe/FileSpace.c:254-588 | Growing, failing to grow and cutting keep all chains finite, acyclic, terminated and disjoint, and the free entries exactly those in no chain. |
| VolumeRuns.RunKeepsWellFormed | FatPkg/EnhancedFatDxe/FileSpace.c:254-588 | The same over any run of operations on any files. |
| VolumeRuns.RunConserves | FatPkg/EnhancedFatDxe/FileSpace.c:254-588 | Over any run free clusters and clusters in files add up to the same number. |
| VolumeRuns.OtherFilesKeepTheirBytes | FatPkg/EnhancedFatDxe/ReadWrite.c:496-576 | An access of one file leaves every byte of every other file alone. |
| LongName.CheckSum | FatPkg/EnhancedFatDxe/FileName.c:429-456 | The loop computes the rotating sum. |
| LongName.SumDetectsChange | FatPkg/EnhancedFatDxe/FileName.c:429-456 | Changing one character of a short name always changes its checksum. |
| LongName.RotatedHalves | FatPkg/EnhancedFatDxe/FileName.c:429-456 | One round rotates to the right: the sum is halved modulo 255 and the lowest bit becomes the highest. |
| LongName.KindsOnDisk | FatPkg/EnhancedFatDxe/DirectoryManage.c:398-502 | Which slots are entries and which end the directory, by attribute bit 3 and the first byte. |
| LongName.LongNameOnDisk | FatPkg/EnhancedFatDxe/DirectoryManage.c:70-154 | Where each character of a long name is on the disk, with ordinals, the mark 0x40 of the topmost slot, checksum and padding. |
| LongName.DeletedOnDisk | FatPkg/EnhancedFatDxe/DirectoryManage.c:70-154 | A deleted entry has the first byte 0xE5 in all of its slots. |
| LongName.EntryNumberIsLeast | FatPkg/EnhancedFatDxe/FatFileSystem.h:77-77 | The least number of pieces of 13 characters that holds the name. |
| LongName.LongNameRoundTrip | FatPkg/EnhancedFatDxe/DirectoryManage.c:276-364 | A long name of 1 to 255 characters written as reversed, checksummed slots reads back as the same name and slot count, also when it fills its last slot. |
| LongName.EntryCountFits | FatPkg/EnhancedFatDxe/DirectoryManage.c:736-797 | The slot count computed for any such name is enough. |
| LongName.ShortNameRoundTrip | FatPkg/EnhancedFatDxe/DirectoryManage.c:276-364 | A short entry behind a slot that does not continue a name has one slot and its case-flag name. |
| LongName.LoadRange | FatPkg/EnhancedFatDxe/DirectoryManage.c:276-364 | A loaded name consists of undeleted long-name slots directly below its short entry. |
| LongName.LoadAbove | FatPkg/EnhancedFatDxe/DirectoryManage.c:276-364 | A short entry written outside the slots of a name does not change that name. |
| DirScan.ScanSorted | FatPkg/EnhancedFatDxe/DirectoryManage.c:398-502 | Listed entries are in the order of their positions and no slot belongs to two of them. |
| DirScan.WriteAddsToScan | FatPkg/EnhancedFatDxe/DirectoryManage.c:70-154 | Writing an entry into a vacant range adds exactly that entry to the linear scan of the disk. |
| DirScan.RemoveFromScan | FatPkg/EnhancedFatDxe/DirectoryManage.c:1234-1276 | Deleting an entry removes exactly that entry from the scan. |
| DirScan.WriteKeepsNoOrphans | FatPkg/EnhancedFatDxe/DirectoryManage.c:70-154 | After a write every undeleted long-name slot still belongs to an entry. |
| DirScan.RemoveKeepsNoOrphans | FatPkg/EnhancedFatDxe/DirectoryManage.c:1234-1276 | After a removal every undeleted long-name slot still belongs to an entry. |
| ShortName.FindSeparateDot | FatPkg/EnhancedFatDxe/FileName.c:58-62 | The first scan finds the last dot. |
| ShortName.NoExtraBlanksOrDots | FatPkg/EnhancedFatDxe/FileName.c:83-90 | The second scan finds whether there are blanks or other dots. |
| ShortName.CheckIs8Dot3Name | FatPkg/EnhancedFatDxe/FileName.c:24-115 | True exactly for one to eight plain representable characters and at most three more after a dot; the 8.3 form or base tag is returned either way. |
| DirIndex.AtMostOneMatch | FatPkg/EnhancedFatDxe/DirectoryManage.c:576-644 | With unique names a name, taken as long or short name, means at most one entry. |
| DirIndex.AnyMatchIsFirst | FatPkg/EnhancedFatDxe/DirectoryManage.c:576-644 | Any matching entry is the one a linear search finds. |
| DirIndex.LongNameHashSearch | FatPkg/EnhancedFatDxe/Hash.c:84-116 | The first node of the bucket whose long name is equal, or none. |
| DirIndex.ShortNameHashSearch | FatPkg/EnhancedFatDxe/Hash.c:119-151 | The first node of the bucket with that short name, or none. |
| DirIndex.NotInBucket | FatPkg/EnhancedFatDxe/Hash.c:84-151 | A bucket searched in vain means that no listed entry has the name. |
| DirIndex.InsertedIndexed | FatPkg/EnhancedFatDxe/Hash.c:154-192 | Insertion at the head of a bucket keeps a table an index of the list. |
| DirIndex.UnlinkedIndexed | FatPkg/EnhancedFatDxe/Hash.c:195-218 | Unlinking a node keeps a table an index of the list without that entry. |
| ShortName.TrimAsciiTrailingBlanks | FatPkg/EnhancedFatDxe/FileName.c:119-145 | Exactly the trailing blanks are cut off. |
| ShortName.FileNameIsValid | FatPkg/EnhancedFatDxe/FileName.c:497-579 | A name is accepted exactly if, without leading blanks and trailing blanks and dots, it has 1 to 255 characters that are all legal; that trimmed name is what the directory code gets. |
| ShortName.EqualShort | FatPkg/EnhancedFatDxe/FileName.c:24-115 | Names that are equal up to case have the same 8.3 form, and one is an 8.3 name if the other is. |
| ShortName.PartRoundTrip | FatPkg/EnhancedFatDxe/FileName.c:276-426 | Base name or extension, converted to OEM characters and back with its case flag, is itself. |
| ShortName.CaseFlagBits | FatPkg/EnhancedFatDxe/FileName.c:276-386 | Bit 3 is set exactly for a main part in lower case, bit 4 for such an extension, and no other bit. |
| ShortName.LegalChars | FatPkg/EnhancedFatDxe/FileName.c:497-579 | The characters refused in a name. |
| ShortName.CaseRoundTrip | FatPkg/EnhancedFatDxe/FileName.c:276-426 | A valid 8.3 name in one case per part is written as its 8.3 form with two case flags and reads back as exactly that name. |
| AsciiCollation.AsciiIsLawful | FatPkg/EnhancedFatDxe/FileName.c:339-426 | The laws asked of collation hold of the case mapping of ASCII. |
| AsciiCollation.AsciiExample | FatPkg/EnhancedFatDxe/FileName.c:276-426 | With that collation a name with a lower-case base is a short name, gets the case flag 0x08 and reads back. |
| Directory.WriteHashForm | FatPkg/EnhancedFatDxe/FileName.c:254-269 | The loop writes the hash form over the short name. |
| Directory.SpecFormIs | FatPkg/EnhancedFatDxe/FileName.c:230-246 | The numeric tail: the trimmed main part, at most six characters of it, a tilde and the counting character. |
| Directory.HashFormIs | FatPkg/EnhancedFatDxe/FileName.c:248-269 | The fallback: at most two characters of the base, four hexadecimal digits of the low half of each byte of the hash, a tilde and the counting character. |
| Directory.Create8Dot3Name | FatPkg/EnhancedFatDxe/FileName.c:192-272 | Terminates with a short name no listed entry has, in one of the two forms, if one of the 256 hash forms is unused. |
| Directory.GapIsVacant | FatPkg/EnhancedFatDxe/DirectoryManage.c:875-953 | A gap between listed entries holds no live slot and no other entry reaches into it. |
| Directory.CreateKeeps | FatPkg/EnhancedFatDxe/DirectoryManage.c:1165-1231 | Adding an entry keeps disk, list and both tables in agreement and names unique. |
| Directory.ExpandKeeps | FatPkg/EnhancedFatDxe/DirectoryManage.c:801-822 | A zeroed cluster at the end adds no entry. |
| Directory.OwnNode | FatPkg/EnhancedFatDxe/Hash.c:195-218 | With unique names the first node with the name of an entry is that entry. |
| Directory.Directory.constructor | FatPkg/EnhancedFatDxe/DirectoryCache.c:63-88 | A directory with nothing loaded yet. |
| Directory.Directory.ReadEntry | FatPkg/EnhancedFatDxe/DirectoryManage.c:25-67 | Past the end of the file every slot reads as empty. |
| Directory.Directory.LoadLongNameEntry | FatPkg/EnhancedFatDxe/DirectoryManage.c:276-364 | The loop computes the name and slot count the slots below the entry stand for. |
| Directory.Directory.StoreDirEnt | FatPkg/EnhancedFatDxe/DirectoryManage.c:70-154 | The loop leaves the directory file with exactly the slots of the entry rewritten. |
| Directory.Directory.AddDirEnt | FatPkg/EnhancedFatDxe/DirectoryManage.c:368-394 | The node goes before the given child, and both tables are an index of the longer list if they were of the old one. |
| Directory.Directory.LoadNextDirEnt | FatPkg/EnhancedFatDxe/DirectoryManage.c:398-502 | Loads the next live entry of the disk, or finds the end; list and tables stay in agreement with the slots passed. |
| Directory.Directory.ChildrenAreListed | FatPkg/EnhancedFatDxe/DirectoryManage.c:398-502 | The child list is the loaded part of the disk scan, sorted, with disjoint slot ranges and unique names. |
| Directory.Directory.SearchTables | FatPkg/EnhancedFatDxe/DirectoryManage.c:608-618 | The two bucket searches find a loaded entry exactly if one matches. |
| Directory.Directory.SearchODir | FatPkg/EnhancedFatDxe/DirectoryManage.c:576-644 | Two hash tables and lazy loading find exactly what a linear search of all live entries on the disk finds. |
| Directory.Directory.DeleteFromHashTable | FatPkg/EnhancedFatDxe/Hash.c:195-218 | Exactly the given entry leaves both tables. |
| Directory.Directory.RemoveDirEnt | FatPkg/EnhancedFatDxe/DirectoryManage.c:1234-1276 | Exactly the given entry leaves list, tables and disk; exactly its slots are marked deleted. |
| Directory.LabelOnDisk | FatPkg/EnhancedFatDxe/DirectoryManage.c:861-861 | A volume label is a slot that is not deleted and has attribute 8, archived or not. |
| Directory.Directory.SeekVolumeId | FatPkg/EnhancedFatDxe/DirectoryManage.c:826-871 | The first volume label before the end of the directory. |
| Directory.Directory.FirstFitInsertDirEnt | FatPkg/EnhancedFatDxe/DirectoryManage.c:875-953 | The first gap between children that is large enough and spares the label; full exactly if there is none; the label is overwritten exactly if no earlier gap is good and it lies in the part taken behind the last child. |
| Directory.LabelLostExample | FatPkg/EnhancedFatDxe/DirectoryManage.c:875-953 | A root directory of four slots in which the next new file replaces the volume label. |
| Directory.Directory.LoadAll | FatPkg/EnhancedFatDxe/DirectoryManage.c:957-1024 | The whole directory is loaded. |
| Directory.Directory.NewEntryPos | FatPkg/EnhancedFatDxe/DirectoryManage.c:957-1024 | Append or first fit; the position is inside the file exactly if one more cluster is room enough. |
| Directory.RoomRunsOutExample | FatPkg/EnhancedFatDxe/DirectoryManage.c:1002-1022 | A full directory with clusters of 512 bytes and a name of 200 characters: one more cluster is not enough. |
| Directory.EntryCountIsLeast | FatPkg/EnhancedFatDxe/DirectoryManage.c:736-797 | One slot for an 8.3 name with one case per part; for any other name one more than the least number of 13-character pieces that holds it. |
| Directory.Directory.SetEntryCount | FatPkg/EnhancedFatDxe/DirectoryManage.c:736-797 | One slot for an 8.3 name with one case per part, else one more than the least number of 13-character pieces; with a short name that is its own 8.3 form or unused. |
| Directory.Directory.AddAndStore | FatPkg/EnhancedFatDxe/DirectoryManage.c:1222-1226 | Listing the node and writing its slots leaves disk, list and tables in agreement. |
| Directory.Directory.CreateDirEnt | FatPkg/EnhancedFatDxe/DirectoryManage.c:1165-1231 | After a search in vain: disk, list and tables gain exactly one entry, with the slot count its name needs and no more, and a search for the name now finds it; the driver goes on behind the end of the directory file exactly if there is no room for the slots. |
| Completion.StepInv | FatPkg/EnhancedFatDxe/Misc.c:137-338 | Every event of the task protocol keeps its invariant. |
| Completion.RunInv | FatPkg/EnhancedFatDxe/Misc.c:137-338 | The invariant holds after any run of submissions, refusals and completions. |
| Completion.Protocol | FatPkg/EnhancedFatDxe/Misc.c:137-338 | In any order of submissions and completions, the task is freed exactly once, when its list empties, and signalled at most once; without a refused submission exactly once, with an error exactly if some subtask failed. |
| Completion.SilentAfterRefusal | FatPkg/EnhancedFatDxe/Misc.c:208-232 | With a refused submission the signals of the whole run are those before the refusal: none, or one with the error of a subtask. |
| Completion.RunRemaining | FatPkg/EnhancedFatDxe/Misc.c:137-338 | The subtask list holds exactly the subtasks that have not completed, after a refusal only those accepted before it; so the task is freed with the last of them and none in flight outlives it. |
| Completion.FatTask.OnAccessComplete | FatPkg/EnhancedFatDxe/Misc.c:278-338 | The completion callback is the completion event of the protocol. |
| Completion.FatTask.AbandonRest | FatPkg/EnhancedFatDxe/Misc.c:208-232 | The error branch of the submission loop is the refusal event of the protocol, after which the task stays silent. |
| Completion.FatTask.constructor | FatPkg/EnhancedFatDxe/Misc.c:24-54 | A task with its subtasks collected and nothing submitted. |
| Completion.FatTask.Interrupts | FatPkg/EnhancedFatDxe/Misc.c:278-338 | Any number of completions at one moment extend the run; the subtask just submitted is gone exactly if one of them is its own. |
| Completion.FatTask.QueueTask | FatPkg/EnhancedFatDxe/Misc.c:137-235 | The loop is about to go on from a subtask that is gone exactly if, before any refusal, a subtask completes together with its own submission; otherwise, and up to that point, all it does is a run of the protocol, and after an error return no further event signals the task. |
| Completion.OvertakenExample | FatPkg/EnhancedFatDxe/Misc.c:177-206 | A single subtask that completes at once: the task is freed while the loop still uses it. |
| OpenFiles.RemovedKeeps | FatPkg/EnhancedFatDxe/DirectoryManage.c:1234-1276 | Deleting a listed entry keeps every open file attached to an entry that has not been freed. |
| OpenFiles.FileOfListed | FatPkg/EnhancedFatDxe/DirectoryManage.c:1279-1361 | The open file of a listed entry is below the directory that lists it. |
| OpenFiles.ParentNotGone | FatPkg/EnhancedFatDxe/Delete.c:73-100 | A directory above a file that has not been deleted has not been deleted. |
| OpenFiles.AllBusy | FatPkg/EnhancedFatDxe/Flush.c:367-411 | If no file is unreferenced every file has an open handle at or below it. |
| OpenFiles.BusyIsKept | FatPkg/EnhancedFatDxe/Flush.c:318-363 | Nothing with an open handle at or below it is freed. |
| OpenFiles.NamesOne | FatPkg/EnhancedFatDxe/DirectoryManage.c:1412-1574 | A path followed by name, upwards and to the root through the lists of the directories names at most one entry. |
| OpenFiles.VolumeFiles.UpNames | FatPkg/EnhancedFatDxe/DirectoryManage.c:1515-1524 | The parent of a file is the file of the directory that lists its entry, and only the root has none. |
| OpenFiles.VolumeFiles.OpenDirEnt | FatPkg/EnhancedFatDxe/DirectoryManage.c:1279-1361 | The file of a listed directory entry, below the directory that lists it: the one already open, or a new one on the check list. |
| OpenFiles.VolumeFiles.SearchODir | FatPkg/EnhancedFatDxe/DirectoryManage.c:576-644 | The listed entry with the name, or a newly loaded one; never a deleted one. |
| OpenFiles.VolumeFiles.NewDirEnt | FatPkg/EnhancedFatDxe/DirectoryManage.c:1165-1231 | A name that is not listed gets an entry with an address never used before. |
| OpenFiles.VolumeFiles.RemoveDirEnt | FatPkg/EnhancedFatDxe/DirectoryManage.c:1234-1276 | The entry leaves its directory and is marked; all links stay in agreement. |
| OpenFiles.VolumeFiles.EntriesInUse | FatPkg/EnhancedFatDxe/DirectoryManage.c:1364-1409 | No open file refers to a freed entry, a deleted entry that is not freed belongs to an open file, and no directory lists a deleted entry. |
| OpenFiles.VolumeFiles.AllocateIFile | FatPkg/EnhancedFatDxe/Open.c:24-78 | One more handle on the file and nothing else. |
| OpenFiles.VolumeFiles.IFileClose | FatPkg/EnhancedFatDxe/Flush.c:191-236 | The handle goes and its file is on the check list. |
| OpenFiles.VolumeFiles.CloseDirEnt | FatPkg/EnhancedFatDxe/DirectoryManage.c:1364-1409 | An unreferenced file leaves the tree, and its entry is freed with it if it has been deleted; all links stay in agreement. |
| OpenFiles.VolumeFiles.CheckOFileRef | FatPkg/EnhancedFatDxe/Flush.c:318-363 | Frees the file exactly if it has neither a handle nor a child. |
| OpenFiles.VolumeFiles.CheckUpwards | FatPkg/EnhancedFatDxe/Flush.c:403-409 | Going up the tree leaves no unreferenced file off the check list. |
| OpenFiles.VolumeFiles.CheckVolumeRef | FatPkg/EnhancedFatDxe/Flush.c:367-411 | Terminates with an empty check list; exactly the files with an open handle at or below them are left, and exactly the deleted entries whose file is gone are freed. |
| OpenFiles.VolumeFiles.OpenVolume | FatPkg/EnhancedFatDxe/OpenVolume.c:25-76 | A handle on the root; between calls only needed files are kept. |
| OpenFiles.VolumeFiles.HandleAndClean | FatPkg/EnhancedFatDxe/Open.c:184-304 | After a successful walk: a handle on the file, and no file that was needed is lost. |
| OpenFiles.VolumeFiles.LocateOFile | FatPkg/EnhancedFatDxe/DirectoryManage.c:1412-1574 | The file reached is that of the entry the path names. A name is left over only if it is the last one and the directory the rest of the path names does not list it; a failed walk is one the lists do not let through. Files are only added and no deleted one is reached. |
| OpenFiles.VolumeFiles.Open | FatPkg/EnhancedFatDxe/Open.c:200-316 | Success adds one handle, on the file of the entry the path names, which has not been deleted; a name is created only if asked for and then is the entry the path names, with a file of its own; a failure on a handle that is not deleted, with every check passed, means a path the lists do not let through; a handle on a deleted file opens nothing; a failure adds no handle, except that one after the handle has been made leaves it behind; no file in use is lost and nothing unneeded is left. |
| OpenFiles.VolumeFiles.Close | FatPkg/EnhancedFatDxe/Flush.c:141-188 | The handle is gone, exactly the files still needed are left, and a deleted entry is freed exactly with its last file. |
| OpenFiles.VolumeFiles.Delete | FatPkg/EnhancedFatDxe/Delete.c:24-136 | The handle goes in any case; a deletion takes the entry out of its directory at once and frees it now exactly if no other handle needs the file, later exactly when the file goes. |
| Geometry.OpenDevice | FatPkg/EnhancedFatDxe/Init.c:202-414 | Which boot sectors are accepted, the FAT type by cluster count, the place of every area, the start hint, and for FAT12 and FAT16 that root directory and clusters end inside the volume. |
| Geometry.PlausibleIff | FatPkg/EnhancedFatDxe/Init.c:251-325 | The boot sectors that pass the checks, with the sector sizes, cluster sizes and media bytes listed. |
| Geometry.FillLayout | FatPkg/EnhancedFatDxe/Init.c:325-406 | The computed positions, the cluster count and the start hint. |
| Geometry.LayoutHolds | FatPkg/EnhancedFatDxe/Init.c:329-344 | Tables behind the reserved sectors, the root directory behind all copies, rounded up to whole sectors; FAT12 below 4085 clusters; exactly the whole clusters of the rest are counted unless the count wraps. |
| Geometry.WrappedCount | FatPkg/EnhancedFatDxe/Init.c:343-343 | Tables and root directory larger than the volume wrap the cluster count around to at least 2^55. |
| Geometry.SmallVolumeFits | FatPkg/EnhancedFatDxe/Init.c:343-357 | For FAT12 and FAT16 acceptance implies that the clusters end inside the volume and no cluster number is a special value. |
| Geometry.WellSizedIff | FatPkg/EnhancedFatDxe/FileSpace.c:26-144 | The two size conditions hold exactly if every cluster has its entry in the first table and a number that is not special. |
| Geometry.WellSizedFits | FatPkg/EnhancedFatDxe/Init.c:329-369 | With them the clusters of an accepted volume of any type end inside it. |
| Geometry.ShortTableExample | FatPkg/EnhancedFatDxe/Init.c:202-414 | An accepted FAT12 boot sector whose table is too short for its clusters. |
| Geometry.TablesPastEndExample | FatPkg/EnhancedFatDxe/Init.c:202-414 | An accepted FAT32 boot sector whose tables alone are larger than the volume. |
| Geometry.TooManyClustersExample | FatPkg/EnhancedFatDxe/Init.c:202-414 | An accepted FAT32 boot sector whose last clusters have the numbers of special values. |
| Geometry.ReadyToMount | FatPkg/EnhancedFatDxe/DiskCache.c:480-540 | What an accepted and well-sized layout gives the caches and the cluster space. |
| Geometry.Mount | FatPkg/EnhancedFatDxe/DiskCache.c:480-540 | A boot sector that FatOpenDevice accepts and that is well sized is all that caches, table and cluster space require; page sizes and group counts by FAT type. |
| Dhcp6Codec.AppendOption | NetworkPkg/Dhcp6Dxe/Dhcp6Utility.c:621-650 | Code, length and data are written at the position and nothing else changes. |
| Dhcp6Codec.AppendIaAddrOption | NetworkPkg/Dhcp6Dxe/Dhcp6Utility.c:663-719 | An IA Address option is written; a Confirm leaves the lifetime bytes alone. |
| Dhcp6Codec.AppendAddresses | NetworkPkg/Dhcp6Dxe/Dhcp6Utility.c:794-800 | All addresses follow each other. |
| Dhcp6Codec.AppendIaHead | NetworkPkg/Dhcp6Dxe/Dhcp6Utility.c:778-792 | IAID and, for IA_NA, T1 and T2, zero written as infinity. |
| Dhcp6Codec.AppendIaOption | NetworkPkg/Dhcp6Dxe/Dhcp6Utility.c:735-808 | A whole IA option in place, with the length field filled in last. |
| Dhcp6Codec.NetworkOrder | NetworkPkg/Dhcp6Dxe/Dhcp6Utility.c:621-650 | Numbers are written and read most significant byte first. |
| Dhcp6Codec.AddrOnWire | NetworkPkg/Dhcp6Dxe/Dhcp6Utility.c:663-719 | Section 22.6 of RFC 3315: the octets of an IA Address option. |
| Dhcp6Codec.IaOnWire | NetworkPkg/Dhcp6Dxe/Dhcp6Utility.c:735-808 | Section 22.4 of RFC 3315: the fields of an IA option, with the length of what follows, T1 and T2 for IA_NA only, and the address options behind them. |
| Dhcp6Codec.SeekOption | NetworkPkg/Dhcp6Dxe/Dhcp6Utility.c:927-955 | Walks the list by length fields to the first option with the code. |
| Dhcp6Codec.SeekIaOption | NetworkPkg/Dhcp6Dxe/Dhcp6Utility.c:970-1000 | The same for type and IAID. |
| Dhcp6Codec.AddrIsInCurrentIa | NetworkPkg/Dhcp6Dxe/Dhcp6Utility.c:1014-1029 | Whether the address is among those of the IA. |
| Dhcp6Codec.ParseAddrOption | NetworkPkg/Dhcp6Dxe/Dhcp6Utility.c:1042-1112 | The counting pass and the filling pass agree, and the buffer holds exactly the accepted addresses. |
| Dhcp6Codec.SeekPasses | NetworkPkg/Dhcp6Dxe/Dhcp6Utility.c:927-1000 | A seek passes over every option that is not the one sought. |
| Dhcp6Codec.KeptCounts | NetworkPkg/Dhcp6Dxe/Dhcp6Utility.c:1042-1112 | Every address whose lifetimes make sense is kept as often as it occurs, a zero valid lifetime only for an address that is known; no other one is. |
| Dhcp6Codec.OptionRoundTrip | NetworkPkg/Dhcp6Dxe/Dhcp6Utility.c:927-955 | An appended option is found behind any others and its data reads back. |
| Dhcp6Codec.AppendedStands | NetworkPkg/Dhcp6Dxe/Dhcp6Utility.c:621-650 | What is appended behind a list stands there as part of the list. |
| Dhcp6Codec.AddrReadsBack | NetworkPkg/Dhcp6Dxe/Dhcp6Utility.c:1042-1112 | An IA Address option reads back as written, after a Confirm with the lifetimes that were in the packet. |
| Dhcp6Codec.IaIsFound | NetworkPkg/Dhcp6Dxe/Dhcp6Utility.c:970-1000 | An IA at any place of a list is found, its times read back, and its length field and the length of its addresses are right exactly up to 2340 addresses. |
| Dhcp6Codec.IaRoundTrip | NetworkPkg/Dhcp6Dxe/Dhcp6Utility.c:735-1112 | Sections 22.4 and 22.6 of RFC 3315: an appended IA, with the length read back from its own field, parses to exactly its acceptable addresses with their lifetimes, and to all of them in order if the lifetimes are positive and valid is at least preferred. |
| Dhcp6Retry.ExpireTimeBounds | NetworkPkg/Dhcp6Dxe/Dhcp6Utility.c:327-376 | Without overflow a timeout is at least one second and within a tenth of its base around the base or twice the base. |
| Dhcp6Retry.TickKeepsInv | NetworkPkg/Dhcp6Dxe/Dhcp6Io.c:3001-3096 | One tick only counts, or leaves the next timeout within MRT and MRD, or closes. |
| Dhcp6Retry.RunBounds | NetworkPkg/Dhcp6Dxe/Dhcp6Io.c:3001-3096 | Section 14 of RFC 3315 over any run of ticks: timeouts at least one, after the first at most MRT and a tenth, time used within MRD, at most MRC retransmissions. |
| Dhcp6Retry.RunBacksOff | NetworkPkg/Dhcp6Dxe/Dhcp6Io.c:3001-3096 | Section 14 of RFC 3315: every second passes, or a timeout has run out and the next one is within a tenth of twice the old one, or of MRT if that can be exceeded, or what is left of MRD. |
| Dhcp6Retry.RunClock | NetworkPkg/Dhcp6Dxe/Dhcp6Io.c:3001-3096 | The counters are what they are for: the ticks so far are the timeouts that ran out, one more for each retransmission, and the rest; the time used is their sum. |
| Dhcp6Retry.RunGivesUpIff | NetworkPkg/Dhcp6Dxe/Dhcp6Io.c:3001-3051 | A run closes exactly when a timeout runs out with MRC retransmissions done or MRD used up, never earlier. |
| Dhcp6Retry.NoiseSpansTenth | NetworkPkg/Dhcp6Dxe/Dhcp6Utility.c:327-376 | The random part reaches from nothing to the full tenth, downwards only where a sign is wanted. |
| Dhcp6Retry.TimeoutsOfMessages | NetworkPkg/Dhcp6Dxe/Dhcp6Io.c:36-221 | Initial and maximal timeouts of each message type, and when those of the caller are taken instead. |
| Dhcp6Retry.DriverGivesUpIff | NetworkPkg/Dhcp6Dxe/Dhcp6Io.c:36-221 | A Request is given up exactly after 10 retransmissions, a Decline or Release after 5, a Confirm when 10 seconds are used, a Renew when T2 and a Rebind when the last lease is reached, the others never. |
| Dhcp6Retry.RenewEndsInTime | NetworkPkg/Dhcp6Dxe/Dhcp6Io.c:3073-3080 | Once sent again, a Renew plans no timeout beyond T2 and a Rebind none beyond the last lease. |
| Dhcp6Retry.RunCloses | NetworkPkg/Dhcp6Dxe/Dhcp6Io.c:3001-3096 | With MRC or MRD set no run is longer than a bound known at the start. |
| Dhcp6Retry.DurationBound | NetworkPkg/Dhcp6Dxe/Dhcp6Io.c:3001-3096 | With MRD alone that bound is twice the larger of MRD and the first timeout, and one. |
| Dhcp6Retry.DriverControlsAreSafe | NetworkPkg/Dhcp6Dxe/Dhcp6Io.c:36-221 | The parameters the driver picks by itself never overflow, for lease times below 2^31 seconds. |
| Dhcp6Retry.TxCb.constructor | NetworkPkg/Dhcp6Dxe/Dhcp6Io.c:36-221 | A message starts with the parameters of its type, the first timeout and cleared counters, and then no sum overflows if the driver picks the parameters. |
| Dhcp6Retry.TxCb.OnTick | NetworkPkg/Dhcp6Dxe/Dhcp6Io.c:3001-3096 | The code of one tick is the tick the run theorems are about; only a Solicit with a stored advertisement is left to the selection, which closes the instance if it is aborted. |
| Dhcp6Release.ShiftDown | NetworkPkg/Dhcp6Dxe/Dhcp6Utility.c:551-557 | Entries after the one taken out move down by one. |
| Dhcp6Release.SplitConserves | NetworkPkg/Dhcp6Dxe/Dhcp6Utility.c:483-569 | Requested and remaining addresses together are the original ones, none lost or duplicated. |
| Dhcp6Release.WithoutAllIsUnrequested | NetworkPkg/Dhcp6Dxe/Dhcp6Utility.c:483-569 | Taking out one address after the other leaves exactly the unrequested ones in their order. |
| Dhcp6Release.TakenLive | NetworkPkg/Dhcp6Dxe/Dhcp6Utility.c:533-561 | One request is served from the live entries although stale ones are scanned too. |
| Dhcp6Release.DistinctSplit | NetworkPkg/Dhcp6Dxe/Dhcp6Utility.c:524-563 | Different requests that are all there: every round finds its entry, the requested entries go in the order of the requests, the others stay in theirs, and nothing is lost or duplicated. |
| Dhcp6Release.PartialRequestIff | NetworkPkg/Dhcp6Dxe/Dhcp6Utility.c:524-566 | What stays of a partial request is what nobody asked for exactly if no request is repeated. |
| Dhcp6Release.FullRequestIff | NetworkPkg/Dhcp6Dxe/Dhcp6Utility.c:508-520 | A request for as many addresses as there are is answered as asked exactly if it lists them in their order, and releases only what was asked for exactly if it lists them all. |
| Dhcp6Release.FullRequestExample | NetworkPkg/Dhcp6Dxe/Dhcp6Utility.c:508-520 | Two requests for one of two addresses: the other one goes too. |
| Dhcp6Release.RepeatedRequestExample | NetworkPkg/Dhcp6Dxe/Dhcp6Utility.c:524-566 | Two requests for the last of three addresses: both rounds find it, and the second address is lost. |
| Dhcp6Release.IaAddresses.Find | NetworkPkg/Dhcp6Dxe/Dhcp6Utility.c:533-539 | The first entry with the address, or none. |
| Dhcp6Release.IaAddresses.TakeOut | NetworkPkg/Dhcp6Dxe/Dhcp6Utility.c:533-561 | One round on any array: the entry with the address is copied and shifted out, or nothing happens and the slot of the copy keeps what it held. |
| Dhcp6Release.IaAddresses.TakeRequested | NetworkPkg/Dhcp6Dxe/Dhcp6Utility.c:524-563 | All rounds on any requests, whether each found its entry, and the new count. |
| Dhcp6Release.IaAddresses.DepriveAddress | NetworkPkg/Dhcp6Dxe/Dhcp6Utility.c:483-569 | For addresses that differ and requests that are all there, the copy is what was asked for and the array what was not exactly if the requests are the addresses in their order, or fewer and different; no request takes everything. |

## Left out

- DiskCache.Volume.AccessCache: states the behaviour when device access succeeds and blocks; the driver retags a slot before it loads it, so a failed load leaves a wrong tag, and with a task the access is only queued.
- DiskCache.Volume.AccessCache: a FAT access must not span a whole aligned page, which the driver asserts; page buffers, tags and caller buffers are sequences, so aliasing of a caller buffer with the cache is not captured.
- DiskCache.Volume.DiskIo: raw writes are limited to the reserved area, the only place the driver writes that way outside the cache.
- FatEntries.EntryTable.StoreFatEntry: indexes are those of the table; beyond it the driver keeps the position of the entry loaded before.
- FileSpace.FatVolume.SetFatEntry: indexes are those of the table, the only ones the driver stores at.
- FileSpace.FatVolume.FreeClusters: the argument is a terminated chain, as `OFile.Valid` keeps it; the report of a free or special entry in the middle of a chain is not reached.
- FileSpace.FatVolume.AllocateCluster: needs a free count that is exact or flagged invalid; a wrong count in the information sector of FAT32 is not covered.
- OpenFile.OFile.OFilePosition: in the fixed root directory only positions inside it; the driver checks that before every slot it reads.
- ReadWrite.AccessOFile: what the device access at the wrong address of a stray request does to other structures is not modelled.
- ReadWrite.ExpandOFile: memory for the zero buffer is taken to be available.
- ReadWrite.IFile.Write: flushing of the directory entry and volume cleanup after an error are not part of this model.
- Directory.Directory.CreateDirEnt: names other than "." and ".."; the caller has searched in vain before, no long-name slot lacks an entry, and one of the 256 hash forms of the short name is unused.
- Directory.Directory.SearchODir: the disk must satisfy `DiskOk` (unique names, only empty slots after the first empty one, at most 65536 slots).
- Directory.Directory.LoadNextDirEnt: the clearing of the high cluster word in memory on FAT12 and FAT16 is not modelled; times, first cluster and size of an entry are one opaque part.
- Directory.Directory.StoreDirEnt: slots are values with the fields the driver looks at, not 32 bytes in clusters.
- Completion.FatTask.QueueTask: the reads and writes themselves are outcomes, not transfers.
- OpenFiles.VolumeFiles.Open: checks of modes and attributes are one outcome; renaming across directories and the cache of closed directories are not part of this model.
- OpenFiles.VolumeFiles.Delete: the write of the deleted entry to the disk is taken to succeed.
- Geometry.Mount: the size conditions FatOpenDevice does not check are required.
- Dhcp6Codec.ParseAddrOption: memory up to 27 bytes behind the list, which the driver reads before it checks an option code, must be readable; the same holds for 7 bytes in the two seeks.
- Dhcp6Retry.RunBounds: the run has no stored advertisement if the message is a Solicit, and no product or sum reaches 32 bits.
- Dhcp6Release.IaAddresses.DepriveAddress: more requests than addresses, which needs a repeated one, make the count wrap around; what is then left is not described beyond that.
- The directory cursor, label placement, file-info buffers, time conversion, locks, driver binding, allocation failures and the rest of the DHCPv6 session state machine would add only easy members or plumbing.
- FatPkg/FatPei is a smaller read-only version of the same chain walk.
