/**
 FAT_OFILE: the size-changing half of FatPkg/EnhancedFatDxe/FileSpace.c (FatShrinkEof, FatGrowEof)
 and FatTruncateOFile. A ghost field records the cluster chain of the file.
 */
module OpenFile {
  import opened Bytes
  import opened PageCache
  import opened DiskCache
  import opened FatTable
  import opened FatEntries
  import opened FileSpace
  import opened Clusters
  import opened FileBytes

  const MAX_FILE_SIZE: nat := 0xFFFF_FFFF

  /** FatSizeToClusters. */
  function SizeToClusters(clusterSize: nat, size: nat): nat
    requires clusterSize > 0
  {
    PageNumber(clusterSize, size) + if PageOffset(clusterSize, size) > 0 then 1 else 0
  }

  /** The least number of clusters that holds `size` bytes. */
  lemma {:induction false} SizeToClustersIsCeiling(clusterSize: nat, size: nat)
    requires clusterSize > 0
    ensures var n := SizeToClusters(clusterSize, size);
            size <= PagePos(clusterSize, n) && (n > 0 ==> PagePos(clusterSize, n - 1) < size)
  {
    SplitPosition(clusterSize, size);
    var n := SizeToClusters(clusterSize, size);
    assert n > 0 ==> PagePos(clusterSize, n) == PagePos(clusterSize, n - 1) + clusterSize;
  }

  lemma {:induction false} SizeToClustersGrows(clusterSize: nat, size: nat, size': nat)
    requires clusterSize > 0 && size <= size'
    ensures SizeToClusters(clusterSize, size) <= SizeToClusters(clusterSize, size')
  {
    SizeToClustersIsCeiling(clusterSize, size);
    SizeToClustersIsCeiling(clusterSize, size');
    var n, n' := SizeToClusters(clusterSize, size), SizeToClusters(clusterSize, size');
    if n' < n { PageOrder(clusterSize, n', n); }
  }

  lemma {:induction false} WrapBack(cs: nat, back: nat)
    requires 0 < cs && 0 < back < UINTN_LIMIT
    ensures UINTN_LIMIT * cs >= back && (UINTN_LIMIT * cs - back) % UINTN_LIMIT == UINTN_LIMIT - back
  {
    assert UINTN_LIMIT * cs - back == (cs - 1) * UINTN_LIMIT + (UINTN_LIMIT - back);
    QuotientIsUnique(UINTN_LIMIT, cs - 1, UINTN_LIMIT - back);
  }

  /** The disk position FatOFilePosition computes from a cluster number, in UINT64 arithmetic; an end mark counts as a cluster. */
  function DiskPos(first: nat, clusterSize: nat, cluster: nat, offset: nat): nat
    requires cluster >= FAT_MIN_CLUSTER
  {
    (first + PagePos(clusterSize, cluster - FAT_MIN_CLUSTER) % UINTN_LIMIT + offset) % UINTN_LIMIT
  }

  /**
   For an end mark that is `j` below 2^64 that is, by wrap-around, `j + 2` clusters back from the first cluster:
   before it, or at the upper end of the address space if there is no room before it.
   */
  lemma {:induction false} EndMarkAddress(first: nat, cs: nat, j: nat, offset: nat)
    requires 0 < cs && 1 <= j <= 8 && PagePos(cs, j + 2) < UINTN_LIMIT && first + offset < UINTN_LIMIT
    ensures var back := PagePos(cs, j + 2);
            DiskPos(first, cs, UINTN_LIMIT - j, offset) == if back <= first + offset then first + offset - back else UINTN_LIMIT - (back - (first + offset))
  {
    hide PagePos;
    PageSum(cs, UINTN_LIMIT - j - 2, j + 2);
    PagePosIsProduct(cs, UINTN_LIMIT);
    PagePosNext(cs, j + 1);
    WrapBack(cs, PagePos(cs, j + 2));
  }

  class OFile {
    const volume: FatVolume
    const isFixedRootDir: bool
    var fileSize: nat
    var fileCluster: nat
    var fileCurrentCluster: nat
    var fileLastCluster: nat
    var dirty: bool
    var archive: bool
    var position: nat               // within file
    var posDisk: nat                // on the disk
    var posRem: nat                 // remaining in this disk run
    ghost var chain: seq<nat>       // the clusters of the file
    ghost var cursor: nat           // index in the chain of fileCurrentCluster

    ghost function Footprint(): set<object> {
      {this} + volume.Footprint()
    }

    /** The volume is in order and the file is a chain in it. */
    ghost predicate ChainOk()
      reads Footprint()
    {
      && this !in volume.Footprint() && volume.Valid()
      && IsChain(volume.fat.table, fileCluster, chain)
      && (fileLastCluster == 0 || (chain != [] && fileLastCluster == chain[|chain| - 1]))
    }

    ghost predicate Valid()
      reads Footprint()
    {
      ChainOk() && SeekOk()
    }

    /** The saved position belongs to the saved cluster, unless the next seek will start over. */
    ghost predicate SeekOk()
      reads this, volume
    {
      fileCurrentCluster != fileCluster ==>
        cursor < |chain| && chain[cursor] == fileCurrentCluster && position == PagePos(volume.clusterSize, cursor)
    }

    ghost predicate Sized()
      reads this, volume
      requires volume.clusterSize > 0
    {
      |chain| == SizeToClusters(volume.clusterSize, fileSize)
    }

    /** FatOpenDirEnt: a file whose chain starts at the cluster named by its directory entry. */
    constructor (vol: FatVolume, fixedRoot: bool, size: nat, start: nat, ghost clusters: seq<nat>)
      requires vol.Valid() && IsChain(vol.fat.table, start, clusters)
      ensures Valid() && volume == vol && isFixedRootDir == fixedRoot && fileSize == size && fileCluster == start
      ensures chain == clusters && fileLastCluster == 0
    {
      volume, isFixedRootDir, fileSize, fileCluster, fileCurrentCluster, fileLastCluster := vol, fixedRoot, size, start, start, 0;
      dirty, archive, position, posDisk, posRem := false, false, 0, 0, 0;
      chain, cursor := clusters, 0;
    }

    /** The fixed root directory of FAT12 and FAT16 lies between the tables and the first cluster. */
    ghost predicate FixedRootFits()
      reads this, volume
    {
      isFixedRootDir ==> volume.fat.io.rootPos + fileSize <= volume.firstClusterPos
    }

    /** Where the bytes of the file are in the data region. */
    ghost function Places(): seq<nat>
      reads Footprint()
      requires ChainOk()
    {
      ChainInTable(volume.fat.table, fileCluster, chain);
      if isFixedRootDir then seq(fileSize, p => p)
      else ChainPlaces(volume.firstClusterPos - volume.fat.io.rootPos, volume.clusterSize, chain)
    }

    /** The places are different and inside the data region. */
    lemma {:induction false} PlacesOk()
      requires ChainOk() && FixedRootFits()
      ensures Distinct(Places()) && Within(Places(), |volume.fat.io.dataCache.content|)
    {
      var io := volume.fat.io;
      if !isFixedRootDir {
        ChainInTable(volume.fat.table, fileCluster, chain);
        PlacesDistinct(volume.firstClusterPos - io.rootPos, volume.clusterSize, chain);
        PlacesWithin(volume.firstClusterPos - io.rootPos, volume.clusterSize, chain, volume.fat.maxCluster, |io.dataCache.content|);
      }
    }

    /** The bytes of the file up to the end of its last cluster, as the caches and the disk hold them. */
    ghost function Bytes(): (r: seq<byte>)
      reads Footprint()
      requires ChainOk() && FixedRootFits()
      ensures |r| == |Places()|
    {
      PlacesOk();
      Gather(volume.fat.io.dataCache.content, Places())
    }

    /** The position lies in the cluster that would follow the last one of the chain. */
    ghost predicate PastEnd(pos: nat)
      reads this, volume
      requires volume.clusterSize > 0
    {
      !isFixedRootDir && chain != [] && PageNumber(volume.clusterSize, pos) == |chain|
    }

    /** The end mark of the chain. */
    ghost function EndMark(): nat
      reads Footprint()
      requires ChainOk() && chain != []
    {
      ChainInTable(volume.fat.table, fileCluster, chain);
      volume.fat.table[chain[|chain| - 1]]
    }

    /**
     The part of FatOFilePosition that follows the chain. In the cluster past the end it succeeds with the
     end mark; further on it reports a corrupted volume.
     */
    method SeekCluster(pos: nat) returns (ok: bool, cluster: nat, startPos: nat, ghost i: nat)
      requires Valid() && !isFixedRootDir
      modifies volume.fat, volume.fat.io`disk, volume.fat.io`diskError, volume.fat.io.fatCache
      ensures Valid() && volume.fat.table == old(volume.fat.table)
      ensures ok == (pos < PagePos(volume.clusterSize, |chain|) || PastEnd(pos))
      ensures ok ==> i <= |chain| && startPos == PagePos(volume.clusterSize, i) <= pos < startPos + volume.clusterSize
      ensures ok ==> i == PageNumber(volume.clusterSize, pos) && (i == |chain| <==> PastEnd(pos))
      ensures ok ==> cluster >= FAT_MIN_CLUSTER && cluster == if i < |chain| then chain[i] else EndMark()
    {
      hide EntryTable.Valid, EntryTable.DiskEntry, Distinct, PageNumber, Splice;
      var clusterSize := volume.clusterSize;
      assert chain[0..] == chain;
      cluster, startPos, i := fileCurrentCluster, position, cursor;
      if fileCluster != cluster {
        LinkedAt(volume.fat.table, fileCluster, chain, cursor);
      }
      if pos < startPos || fileCluster == cluster {
        startPos, cluster, i := 0, fileCluster, 0;
      }
      while startPos + clusterSize <= pos
        invariant i <= |chain| && startPos == PagePos(clusterSize, i) <= pos
        invariant Valid() && volume.fat.table == old(volume.fat.table)
        invariant if chain == [] then cluster == FAT_CLUSTER_FREE else Linked(volume.fat.table, cluster, chain[i..])
        invariant chain != [] && i == |chain| ==> cluster == EndMark()
      {
        if cluster == FAT_CLUSTER_FREE || cluster >= FAT_CLUSTER_SPECIAL {
          PageBelow(clusterSize, pos, i);
          PageBelow(clusterSize, pos, i + 1);
          return false, cluster, startPos, i;
        }
        startPos := startPos + clusterSize;
        assert chain[i..][1..] == chain[i + 1..];
        cluster := volume.fat.GetFatEntry(cluster);
        i := i + 1;
      }
      PageNumberIs(clusterSize, pos, i);
      PageBelow(clusterSize, pos, |chain|);
      ok := cluster >= FAT_MIN_CLUSTER;
    }

    /** The count of consecutive clusters at the end of FatOFilePosition. */
    method CountRun(start: nat, run0: nat, posLimit: nat, ghost i: nat) returns (run: nat, ghost m: nat)
      requires Valid() && i < |chain| && start == chain[i]
      modifies volume.fat, volume.fat.io`disk, volume.fat.io`diskError, volume.fat.io.fatCache
      ensures Valid() && volume.fat.table == old(volume.fat.table)
      ensures Adjacent(chain, i, m)
      ensures run == run0 + PagePos(volume.clusterSize, m - 1)
      ensures run >= posLimit || i + m == |chain| || chain[i + m] != chain[i] + m
    {
      hide EntryTable.Valid, Distinct, SeekOk, PagePos, Linked;
      var cluster: nat := start;
      run, m := run0, 1;
      PagePosNext(volume.clusterSize, 0);
      LinkedAt(volume.fat.table, fileCluster, chain, i);
      var entry := volume.fat.GetFatEntry(cluster);
      while entry == cluster + 1 && run < posLimit
        invariant volume.Valid() && volume.fat.table == old(volume.fat.table)
        invariant Adjacent(chain, i, m) && cluster == chain[i] + (m - 1) < |volume.fat.table|
        invariant run == run0 + PagePos(volume.clusterSize, m - 1)
        invariant if i + m < |chain| then entry == chain[i + m] else EndOfFatChain(entry)
        decreases |chain| - m
      {
        run := run + volume.clusterSize;
        cluster := cluster + 1;
        PagePosNext(volume.clusterSize, m);
        m := m + 1;
        LinkedAt(volume.fat.table, fileCluster, chain, i + m - 1);
        entry := volume.fat.GetFatEntry(cluster);
      }
    }

    /** The cluster of byte `pos`, the place of that byte and the run that starts there. */
    method SeekRun(pos: nat, posLimit: nat) returns (ok: bool, cluster: nat, startPos: nat, run: nat, ghost i: nat)
      requires Valid() && !isFixedRootDir
      modifies volume.fat, volume.fat.io`disk, volume.fat.io`diskError, volume.fat.io.fatCache
      ensures Valid() && volume.fat.table == old(volume.fat.table)
      ensures ok == (pos < |Places()| || PastEnd(pos))
      ensures ok ==> i == PageNumber(volume.clusterSize, pos) && startPos == PagePos(volume.clusterSize, i) <= pos
      ensures ok && !PastEnd(pos) ==>
        && pos < |Places()| && i < |chain| && cluster == chain[i] >= FAT_MIN_CLUSTER && MaximalRun(Places(), pos, run, posLimit)
        && volume.fat.io.rootPos + Places()[pos] == DiskPos(volume.firstClusterPos, volume.clusterSize, cluster, pos - startPos)
      ensures PastEnd(pos) ==> i == |chain| && cluster == EndMark() >= FAT_MIN_CLUSTER && pos + run == startPos + volume.clusterSize && run > 0
    {
      hide EntryTable.Valid, Distinct, Linked, PagePos, PageNumber, SeekOk, Adjacent, MaximalRun, DiskPos;
      ok, cluster, startPos, i := SeekCluster(pos);
      run := 0;
      EndMarkEnds();
      if ok {
        run := startPos + volume.clusterSize - pos;
        if !EndOfFatChain(cluster) {
          ghost var m;
          ChainInTable(volume.fat.table, fileCluster, chain);
          run, m := CountRun(cluster, run, posLimit, i);
          RunOfClusters(volume.firstClusterPos - volume.fat.io.rootPos, volume.clusterSize, chain, i, m, pos - startPos, posLimit);
          PlacesFit();
          DiskPosInside(cluster, pos - startPos, volume.fat.io.rootPos + Places()[pos]);
        }
      }
    }

    /** The end mark is one, and no cluster of the chain is. */
    lemma {:induction false} EndMarkEnds()
      requires ChainOk()
      ensures chain != [] ==> EndOfFatChain(EndMark())
      ensures forall i :: 0 <= i < |chain| ==> !EndOfFatChain(chain[i])
    {
      if chain != [] { LinkedAt(volume.fat.table, fileCluster, chain, |chain| - 1); }
      ChainInTable(volume.fat.table, fileCluster, chain);
    }

    /** What a successful FatOFilePosition promises about PosDisk and PosRem. */
    ghost predicate Positioned(places: seq<nat>, pos: nat, posLimit: nat)
      reads this, volume, volume.fat
    {
      && posRem >= 1 && MaximalRun(places, pos, posRem, posLimit) && posDisk == volume.fat.io.rootPos + places[pos]
    }

    /** What FatOFilePosition leaves behind in the cluster past the end of the chain. */
    ghost predicate Lost(pos: nat)
      reads Footprint()
      requires ChainOk()
    {
      && PastEnd(pos) && EndMark() >= FAT_MIN_CLUSTER && fileCurrentCluster == EndMark() && cursor == |chain|
      && position == PagePos(volume.clusterSize, |chain|) <= pos < position + volume.clusterSize
      && posDisk == DiskPos(volume.firstClusterPos, volume.clusterSize, EndMark(), pos - position) && pos + posRem == position + volume.clusterSize
    }

    lemma {:induction false} FewClusters(cs: nat, n: nat)
      requires n <= 10 && cs <= VOLUME_LIMIT
      ensures PagePos(cs, n) <= 10 * VOLUME_LIMIT
    {
      PagePosIsProduct(cs, n);
      MulOrder(cs, VOLUME_LIMIT, n);
    }

    /**
     In the cluster past the end the disk position is in no cluster of any file. It is as many clusters back
     from the first one as the end mark is below 2^64, and two more; where that is below zero it wraps around
     and lies behind the volume.
     */
    lemma {:induction false} StrayAddress(pos: nat)
      requires ChainOk() && Lost(pos)
      ensures FAT_CLUSTER_SPECIAL < EndMark() < UINTN_LIMIT
      ensures var back, from := PagePos(volume.clusterSize, UINTN_LIMIT - EndMark() + 2), volume.firstClusterPos + (pos - position);
              if back <= from then posDisk == from - back && posDisk + posRem < volume.firstClusterPos
              else posDisk == UINTN_LIMIT - (back - from) > volume.fat.io.volumeSize
    {
      hide EntryTable.Valid, Linked, Distinct, PagePos;
      EndMarkEnds();
      volume.fat.EntriesFit();
      ChainInTable(volume.fat.table, fileCluster, chain);
      var cs, j := volume.clusterSize, UINTN_LIMIT - EndMark();
      PageOrder(cs, 0, volume.fat.maxCluster);
      PageOrder(cs, 2, j + 2);
      PagePosNext(cs, 1);
      PagePosNext(cs, 0);
      FewClusters(cs, j + 2);
      EndMarkAddress(volume.firstClusterPos, cs, j, pos - position);
    }

    /** FatOFilePosition on a file or directory with a cluster chain. */
    method ChainPosition(pos: nat, posLimit: nat) returns (status: Status)
      requires Valid() && !isFixedRootDir
      modifies this`posDisk, this`fileCurrentCluster, this`position, this`posRem, this`cursor
      modifies volume.fat, volume.fat.io`disk, volume.fat.io`diskError, volume.fat.io.fatCache
      ensures ChainOk() && volume.fat.table == old(volume.fat.table)
      ensures if PastEnd(pos) then Lost(pos) else Valid()
      ensures status == if pos < |Places()| || PastEnd(pos) then EFI_SUCCESS else EFI_VOLUME_CORRUPTED
      ensures status == EFI_SUCCESS && !PastEnd(pos) ==>
        && Positioned(Places(), pos, posLimit)
        && cursor == PageNumber(volume.clusterSize, pos) < |chain|
        && fileCurrentCluster == chain[cursor] && position == PagePos(volume.clusterSize, cursor)
    {
      hide EntryTable.Valid, Distinct, Linked, PagePos, PageNumber, Contiguous, MaximalRun, DiskPos, IsChain;
      var ok, cluster, startPos, run;
      ghost var i;
      ok, cluster, startPos, run, i := SeekRun(pos, posLimit);
      if !ok {
        return EFI_VOLUME_CORRUPTED;
      }
      if !PastEnd(pos) { RunIsLong(Places(), pos, run, posLimit); }
      posDisk := DiskPos(volume.firstClusterPos, volume.clusterSize, cluster, pos - startPos);
      fileCurrentCluster, position, cursor, posRem := cluster, startPos, i, run;
      status := EFI_SUCCESS;
    }

    lemma {:induction false} RunIsLong(places: seq<nat>, pos: nat, run: nat, posLimit: nat)
      requires MaximalRun(places, pos, run, posLimit)
      ensures run >= 1
    {
    }

    lemma {:induction false} DiskPosInside(cluster: nat, offset: nat, place: nat)
      requires cluster >= FAT_MIN_CLUSTER && place < UINTN_LIMIT
      requires place == volume.firstClusterPos + PagePos(volume.clusterSize, cluster - FAT_MIN_CLUSTER) + offset
      ensures DiskPos(volume.firstClusterPos, volume.clusterSize, cluster, offset) == place
    {
    }

    /** Inside the chain disk positions do not wrap around. */
    lemma {:induction false} PlacesFit()
      requires ChainOk() && !isFixedRootDir
      ensures forall p :: 0 <= p < |Places()| ==> volume.fat.io.rootPos + Places()[p] < UINTN_LIMIT
    {
      ChainInTable(volume.fat.table, fileCluster, chain);
      PlacesWithin(volume.firstClusterPos - volume.fat.io.rootPos, volume.clusterSize, chain, volume.fat.maxCluster, |volume.fat.io.dataCache.content|);
    }

    /**
     FatOFilePosition. It succeeds inside the file and in the cluster past its end. There the position and the
     run are those of the end mark; everywhere else PosDisk is the place of byte `pos` and the next PosRem
     bytes of the file follow it on the disk, in a run as long as the chain allows or the limit asks.
     */
    method OFilePosition(pos: nat, posLimit: nat) returns (status: Status)
      requires Valid() && FixedRootFits() && (isFixedRootDir ==> pos < fileSize)
      modifies this`posDisk, this`fileCurrentCluster, this`position, this`posRem, this`cursor
      modifies volume.fat, volume.fat.io`disk, volume.fat.io`diskError, volume.fat.io.fatCache
      ensures ChainOk() && volume.fat.table == old(volume.fat.table)
      ensures if PastEnd(pos) then Lost(pos) else Valid()
      ensures status == if pos < |Places()| || PastEnd(pos) then EFI_SUCCESS else EFI_VOLUME_CORRUPTED
      ensures status == EFI_SUCCESS ==> (Positioned(Places(), pos, posLimit) <==> !PastEnd(pos))
      ensures status == EFI_SUCCESS && !isFixedRootDir && !PastEnd(pos) ==>
        && cursor == PageNumber(volume.clusterSize, pos) < |chain|
        && fileCurrentCluster == chain[cursor] && position == PagePos(volume.clusterSize, cursor)
    {
      hide EntryTable.Valid, Distinct, Linked;
      PastEndIsOutside(pos);
      if isFixedRootDir {
        posDisk := volume.fat.io.rootPos + pos;
        posRem := fileSize - pos;
        ghost var places := Places();
        assert forall i :: pos <= i < pos + posRem ==> places[i] == places[pos] + (i - pos);
        status := EFI_SUCCESS;
      } else {
        status := ChainPosition(pos, posLimit);
      }
    }

    lemma {:induction false} PastEndIsOutside(pos: nat)
      requires ChainOk()
      ensures PastEnd(pos) ==> pos >= |Places()|
    {
      if PastEnd(pos) { PageBelow(volume.clusterSize, pos, |chain|); }
    }

    /** The walk over the first `newSize` clusters at the start of FatShrinkEof. */
    method WalkClusters(newSize: nat) returns (ok: bool, cluster: nat, lastCluster: nat)
      requires Valid()
      modifies volume.fat, volume.fat.io`disk, volume.fat.io`diskError, volume.fat.io.fatCache
      ensures volume.Valid() && volume.fat.table == old(volume.fat.table)
      ensures ok == (newSize <= |chain|)
      ensures ok && chain != [] ==> Linked(volume.fat.table, cluster, chain[newSize..])
      ensures ok ==> lastCluster == if newSize > 0 then chain[newSize - 1] else FAT_CLUSTER_FREE
      ensures ok && newSize == 0 ==> cluster == fileCluster
    {
      hide EntryTable.Valid;
      cluster, lastCluster := fileCluster, FAT_CLUSTER_FREE;
      assert chain[0..] == chain;
      var curSize := 0;
      while curSize < newSize
        invariant 0 <= curSize <= newSize && curSize <= |chain|
        invariant volume.Valid() && volume.fat.table == old(volume.fat.table)
        invariant chain == [] ==> cluster == FAT_CLUSTER_FREE
        invariant chain != [] ==> Linked(volume.fat.table, cluster, chain[curSize..])
        invariant lastCluster == if curSize > 0 then chain[curSize - 1] else FAT_CLUSTER_FREE
        invariant curSize == 0 ==> cluster == fileCluster
      {
        if cluster == FAT_CLUSTER_FREE || cluster >= FAT_CLUSTER_SPECIAL {
          ok := false;
          return;
        }
        assert chain[curSize..][1..] == chain[curSize + 1..];
        lastCluster := cluster;
        cluster := volume.fat.GetFatEntry(cluster);
        curSize := curSize + 1;
      }
      ok := true;
    }

    /** The rest of FatShrinkEof once the new last cluster is known: terminate there and free what follows. */
    method CutChain(newSize: nat, cluster: nat, lastCluster: nat) returns (status: Status)
      requires Valid() && chain != [] && newSize <= |chain| && Linked(volume.fat.table, cluster, chain[newSize..])
      requires newSize == SizeToClusters(volume.clusterSize, fileSize)
      requires lastCluster == if newSize > 0 then chain[newSize - 1] else FAT_CLUSTER_FREE
      modifies this, volume`clusterCount, volume`nextCluster, volume.fat
      modifies volume.fat.io`disk, volume.fat.io`diskError, volume.fat.io.fatCache
      ensures Valid() && (old(volume.FreeInfoExact()) ==> volume.FreeInfoExact()) && fileSize == old(fileSize)
      ensures dirty && archive == old(archive) && status == EFI_SUCCESS && Sized()
      ensures Cut(old(volume.fat.table), old(chain), newSize, volume.fat.table, chain)
    {
      hide EntryTable.Valid, Distinct, PagePos;
      ghost var table0, start := volume.fat.table, fileCluster;
      ChainInTable(table0, start, chain);
      if newSize != 0 {
        CutOffStaysLinked(table0, start, chain, newSize, cluster);
        var ignored := volume.SetFatEntry(lastCluster, FAT_CLUSTER_LAST);
      } else {
        fileCluster := FAT_CLUSTER_FREE;
      }
      ShrunkIsChain(table0, start, chain, newSize);
      fileCurrentCluster := fileCluster;
      fileLastCluster := lastCluster;
      dirty := true;
      status := volume.FreeClusters(cluster, chain[newSize..]);
      chain := chain[..newSize];
    }

    /** FatShrinkEof: the chain is cut to the clusters the file size asks for. */
    method ShrinkEof() returns (status: Status)
      requires Valid()
      modifies this, volume`clusterCount, volume`nextCluster, volume.fat
      modifies volume.fat.io`disk, volume.fat.io`diskError, volume.fat.io.fatCache
      ensures Valid() && (old(volume.FreeInfoExact()) ==> volume.FreeInfoExact()) && fileSize == old(fileSize)
      ensures dirty == (old(dirty) || (status == EFI_SUCCESS && old(chain) != [])) && archive == old(archive)
      ensures SizeToClusters(volume.clusterSize, fileSize) > |old(chain)| ==>
        status == EFI_VOLUME_CORRUPTED && volume.fat.table == old(volume.fat.table) && chain == old(chain)
      ensures SizeToClusters(volume.clusterSize, fileSize) <= |old(chain)| ==>
        && status == EFI_SUCCESS && Sized()
        && Cut(old(volume.fat.table), old(chain), SizeToClusters(volume.clusterSize, fileSize), volume.fat.table, chain)
    {
      hide EntryTable.Valid, Distinct, PagePos;
      var newSize := SizeToClusters(volume.clusterSize, fileSize);
      ChainInTable(volume.fat.table, fileCluster, chain);
      var ok, cluster, lastCluster := WalkClusters(newSize);
      if !ok {
        return EFI_VOLUME_CORRUPTED;
      }
      if newSize == 0 && cluster == FAT_CLUSTER_FREE {
        return EFI_SUCCESS;
      }
      status := CutChain(newSize, cluster, lastCluster);
    }

    /** The lookup of the last cluster at the start of FatGrowEof. */
    method FindLastCluster() returns (clusterCount: nat)
      requires Valid() && chain != []
      modifies this`fileLastCluster, volume.fat, volume.fat.io`disk, volume.fat.io`diskError, volume.fat.io.fatCache
      ensures Valid() && volume.fat.table == old(volume.fat.table)
      ensures clusterCount == |chain| && fileLastCluster == chain[|chain| - 1]
    {
      hide EntryTable.Valid;
      var cluster: nat := fileCluster;
      clusterCount := 0;
      assert chain[0..] == chain;
      while !EndOfFatChain(cluster)
        invariant clusterCount <= |chain| && volume.Valid() && volume.fat.table == old(volume.fat.table)
        invariant Linked(volume.fat.table, cluster, chain[clusterCount..])
        invariant clusterCount > 0 ==> fileLastCluster == chain[clusterCount - 1]
        decreases |chain| - clusterCount
      {
        assert chain[clusterCount..][1..] == chain[clusterCount + 1..];
        clusterCount := clusterCount + 1;
        fileLastCluster := cluster;
        cluster := volume.fat.GetFatEntry(cluster);
      }
      assert chain[clusterCount..] == [];
    }

    /**
     The state of the allocation loop of FatGrowEof: `full` is the chain so far and `pending` the table
     that goes with it; `reissued` says that the allocator has handed out the unmarked tail again.
     */
    ghost predicate Extending(table0: seq<nat>, start: nat, chain0: seq<nat>, full: seq<nat>, pending: seq<nat>, reissued: bool)
      reads Footprint()
    {
      && this !in volume.Footprint() && volume.Valid() && volume.FreeInfoExact()
      && chain0 <= full && Growing(table0, |chain0|, full, pending) && IsChain(table0, start, chain0) && InTable(pending, full)
      && (!reissued && |full| > |chain0| ==> volume.nextCluster == full[|full| - 1] + 1)
      && (if reissued then
            && |full| > |chain0| && FreeCount(table0) == |full| - |chain0|
            && volume.fat.table == SetLast(pending, full, full[|full| - 1]) && FreeCount(volume.fat.table) == 0
          else volume.fat.table == pending)
      && (full != [] ==> fileCluster == full[0])
    }

    /** One round of the allocation loop. */
    method TakeCluster(lastCluster: nat, ghost table0: seq<nat>, ghost start: nat, ghost chain0: seq<nat>, ghost full: seq<nat>, ghost pending: seq<nat>, ghost reissued: bool)
      returns (newCluster: nat, ghost full': seq<nat>, ghost pending': seq<nat>, ghost reissued': bool)
      requires Extending(table0, start, chain0, full, pending, reissued)
      requires lastCluster == if full == [] then 0 else full[|full| - 1]
      modifies this`fileCluster, this`fileCurrentCluster
      modifies volume, volume.fat, volume.fat.io`disk, volume.fat.io`diskError, volume.fat.io.fatCache
      ensures Extending(table0, start, chain0, full', pending', reissued')
      ensures EndOfFatChain(newCluster) ==>
        && full' == full && pending' == pending && reissued' == reissued && fileCluster == old(fileCluster)
        && FreeCount(table0) == |full| - |chain0| && (reissued || |full| == |chain0|)
      ensures !EndOfFatChain(newCluster) ==>
        && |full'| + (if reissued' then 1 else 0) == |full| + (if reissued then 1 else 0) + 1
        && full' != [] && newCluster == full'[|full'| - 1]
      ensures full != [] || EndOfFatChain(newCluster) ==> fileCluster == old(fileCluster) && fileCurrentCluster == old(fileCurrentCluster)
      ensures full == [] && !EndOfFatChain(newCluster) ==> fileCurrentCluster == fileCluster
    {
      hide EntryTable.Valid, Linked, Distinct, Growing;
      GrowingCount(table0, |chain0|, full, pending);
      full', pending', reissued' := full, pending, reissued;
      ghost var hint := volume.nextCluster;
      newCluster := volume.AllocateCluster();
      assert full[..|chain0|] == chain0;
      if reissued {
        NextFitComplete(volume.fat.table, hint);
      } else {
        GrowRound(table0, start, |chain0|, full, pending, hint, newCluster);
      }
      if !EndOfFatChain(newCluster) {
        if lastCluster != 0 {
          var ignored := volume.SetFatEntry(lastCluster, newCluster);
        } else {
          fileCluster := newCluster;
          fileCurrentCluster := newCluster;
        }
        if |full| > |chain0| && newCluster == full[|full| - 1] {
          reissued' := true;
        } else {
          full', pending' := full + [newCluster], SetLast(pending, full, newCluster);
          assert InTable(pending', full');
        }
        assert volume.fat.table == if reissued' then SetLast(pending', full', newCluster) else pending';
      }
    }

    /**
     The allocation loop of FatGrowEof with the termination of the list. `full` is the chain afterwards
     and `pending` the table just before its end mark was written.
     */
    method ExtendChain(oldSize: nat, newSize: nat) returns (status: Status, ghost full: seq<nat>, ghost pending: seq<nat>)
      requires Valid() && volume.FreeInfoExact() && oldSize < newSize
      requires fileLastCluster == if chain == [] then 0 else chain[|chain| - 1]
      modifies this`fileCluster, this`fileCurrentCluster, this`fileLastCluster
      modifies volume, volume.fat, volume.fat.io`disk, volume.fat.io`diskError, volume.fat.io.fatCache
      ensures volume.Valid() && volume.FreeInfoExact()
      ensures chain <= full && Growing(old(volume.fat.table), |chain|, full, pending)
      ensures InTable(pending, full) && volume.fat.table == SetLast(pending, full, FAT_CLUSTER_LAST)
      ensures fileCluster == if full == [] then old(fileCluster) else full[0]
      ensures fileLastCluster == if full == [] then 0 else full[|full| - 1]
      ensures chain == [] && full != [] ==> fileCurrentCluster == fileCluster
      ensures chain != [] || full == [] ==> fileCurrentCluster == old(fileCurrentCluster)
      ensures var free, need := FreeCount(old(volume.fat.table)), newSize - oldSize;
              if status == EFI_SUCCESS then (free >= need && |full| == |chain| + need) || (0 < free == need - 1 && |full| == |chain| + free)
              else status == EFI_VOLUME_FULL && (free == 0 || free + 2 <= need) && |full| == |chain| + free
    {
      hide EntryTable.Valid, Linked, Distinct, Growing;
      ghost var table0, start := volume.fat.table, fileCluster;
      full, pending := chain, volume.fat.table;
      GrowingNone(table0, start, chain);
      ghost var reissued := false;
      var lastCluster, curSize := fileLastCluster, oldSize;
      while curSize < newSize
        invariant Extending(table0, start, chain, full, pending, reissued)
        invariant oldSize <= curSize <= newSize && curSize - oldSize == |full| - |chain| + if reissued then 1 else 0
        invariant lastCluster == if full == [] then 0 else full[|full| - 1]
        invariant fileLastCluster == old(fileLastCluster) && (full == [] ==> chain == [])
        invariant full == [] ==> fileCluster == old(fileCluster)
        invariant chain == [] && full != [] ==> fileCurrentCluster == fileCluster
        invariant chain != [] || full == [] ==> fileCurrentCluster == old(fileCurrentCluster)
      {
        var newCluster;
        newCluster, full, pending, reissued := TakeCluster(lastCluster, table0, start, chain, full, pending, reissued);
        if EndOfFatChain(newCluster) {
          GrowingCount(table0, |chain|, full, pending);
          if lastCluster != FAT_CLUSTER_FREE {
            var ignored := volume.SetFatEntry(lastCluster, FAT_CLUSTER_LAST);
            fileLastCluster := lastCluster;
          }
          status := EFI_VOLUME_FULL;
          return;
        }
        lastCluster := newCluster;
        curSize := curSize + 1;
      }
      GrowingCount(table0, |chain|, full, pending);
      assert full != [];
      var ignored := volume.SetFatEntry(lastCluster, FAT_CLUSTER_LAST);
      fileLastCluster := lastCluster;
      status := EFI_SUCCESS;
    }

    /** The outcome of a growth request by `need` clusters when `free` are free, decided before anything is written. */
    static function GrowStatus(free: nat, need: nat): Status {
      if free >= need || (free + 1 == need && free > 0) then EFI_SUCCESS else EFI_VOLUME_FULL
    }

    /** The allocation half of FatGrowEof: extend the chain, and cut it back when the volume fills up. */
    method GrowChain(curSize: nat, newSize: nat) returns (status: Status)
      requires Valid() && volume.FreeInfoExact() && curSize == SizeToClusters(volume.clusterSize, fileSize) < newSize
      requires fileLastCluster == if chain == [] then 0 else chain[|chain| - 1]
      modifies this, volume, volume.fat, volume.fat.io`disk, volume.fat.io`diskError, volume.fat.io.fatCache
      ensures Valid() && volume.FreeInfoExact() && fileSize == old(fileSize)
      ensures status == GrowStatus(FreeCount(old(volume.fat.table)), newSize - curSize) && archive == old(archive)
      ensures GrowthOutcome(old(volume.fat.table), old(chain), curSize, newSize - curSize, volume.fat.table, chain)
    {
      hide EntryTable.Valid, Distinct, Linked, Growing, Grown, Restored, Cut, Exhausted, SizeToClusters, PagePos, FreeFrom, EndOfFatChain;
      ghost var table0, start := volume.fat.table, fileCluster;
      ghost var full, pending;
      ChainInTable(table0, start, chain);
      status, full, pending := ExtendChain(curSize, newSize);
      assert full[..|chain|] == chain;
      GrowOutcome(table0, start, |chain|, full, pending);
      ghost var n := |chain|;
      chain := full;
      if status == EFI_VOLUME_FULL {
        ghost var grown := volume.fat.table;
        ExhaustedOutcome(table0, start, n, full, pending);
        var ignored := ShrinkEof();
        if curSize == n {
          CutIsPrefix(grown, full, n, volume.fat.table, chain);
          GrowRolledBack(table0, start, n, full, pending, volume.fat.table);
        }
        assert Exhausted(table0, full[..n], grown, full);
        assert RolledBack(table0, full[..n], curSize, volume.fat.table, chain);
      }
    }

    lemma {:induction false} CutIsPrefix(table0: seq<nat>, chain0: seq<nat>, n: nat, table: seq<nat>, cut: seq<nat>)
      requires Cut(table0, chain0, n, table, cut)
      ensures cut == chain0[..n]
    {
    }

    /**
     FatGrowEof. With enough free clusters the file grows as asked; with none, or with at least two too
     few, it is cut back to the clusters its size asks for. With exactly one too few, and at least one free,
     the driver reports success although the chain is one cluster short of the growth.
     */
    method GrowEof(newSizeInBytes: nat) returns (status: Status)
      requires Valid() && volume.FreeInfoExact()
      modifies this, volume, volume.fat, volume.fat.io`disk, volume.fat.io`diskError, volume.fat.io.fatCache
      ensures Valid() && volume.FreeInfoExact()
      ensures fileSize == if status == EFI_SUCCESS then newSizeInBytes else old(fileSize)
      ensures (status == EFI_SUCCESS ==> dirty) && archive == old(archive)
      ensures var cur, new_ := SizeToClusters(volume.clusterSize, old(fileSize)), SizeToClusters(volume.clusterSize, newSizeInBytes);
              if newSizeInBytes > MAX_FILE_SIZE then
                status == EFI_UNSUPPORTED && chain == old(chain) && volume.fat.table == old(volume.fat.table)
              else if new_ <= cur then
                status == EFI_SUCCESS && chain == old(chain) && volume.fat.table == old(volume.fat.table)
              else if old(chain) != [] && old(fileLastCluster) == 0 && |old(chain)| != cur then
                && status == EFI_VOLUME_CORRUPTED
                && if cur <= |old(chain)| then Cut(old(volume.fat.table), old(chain), cur, volume.fat.table, chain)
                   else chain == old(chain) && volume.fat.table == old(volume.fat.table)
              else
                && status == GrowStatus(FreeCount(old(volume.fat.table)), new_ - cur)
                && GrowthOutcome(old(volume.fat.table), old(chain), cur, new_ - cur, volume.fat.table, chain)
    {
      hide EntryTable.Valid, Distinct, Linked, Growing, Grown, Restored, GrowthOutcome;
      if newSizeInBytes > MAX_FILE_SIZE {
        return EFI_UNSUPPORTED;
      }
      ghost var start := fileCluster;
      ChainStart(volume.fat.table, start, chain);
      var curSize := SizeToClusters(volume.clusterSize, fileSize);
      var newSize := SizeToClusters(volume.clusterSize, newSizeInBytes);
      if curSize < newSize {
        if fileCluster != FAT_CLUSTER_FREE && fileLastCluster == 0 {
          var clusterCount := FindLastCluster();
          if clusterCount != curSize {
            var ignored := ShrinkEof();
            return EFI_VOLUME_CORRUPTED;
          }
        }
        status := GrowChain(curSize, newSize);
        if status == EFI_VOLUME_FULL {
          return;
        }
      }
      fileSize := newSizeInBytes;
      dirty := true;
      status := EFI_SUCCESS;
    }

    /** FatTruncateOFile. */
    method TruncateOFile(truncatedSize: nat) returns (status: Status)
      requires Valid()
      modifies this, volume`clusterCount, volume`nextCluster, volume.fat
      modifies volume.fat.io`disk, volume.fat.io`diskError, volume.fat.io.fatCache
      ensures Valid() && (old(volume.FreeInfoExact()) ==> volume.FreeInfoExact()) && fileSize == truncatedSize
      ensures SizeToClusters(volume.clusterSize, truncatedSize) > |old(chain)| ==>
        status == EFI_VOLUME_CORRUPTED && volume.fat.table == old(volume.fat.table) && chain == old(chain)
      ensures SizeToClusters(volume.clusterSize, truncatedSize) <= |old(chain)| ==>
        && status == EFI_SUCCESS && Sized()
        && Cut(old(volume.fat.table), old(chain), SizeToClusters(volume.clusterSize, truncatedSize), volume.fat.table, chain)
    {
      fileSize := truncatedSize;
      status := ShrinkEof();
    }
  }
}
