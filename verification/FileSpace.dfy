/**
 The free-space half of FatPkg/EnhancedFatDxe/FileSpace.c: the free-cluster count and hint, the
 allocator and the freeing of a chain.
 */
module FileSpace {
  import opened Bytes
  import opened PageCache
  import opened DiskCache
  import opened FatTable
  import opened FatEntries
  import opened Clusters

  const INT32_LIMIT: nat := 0x8000_0000

  /** The part of FAT_VOLUME that hands out clusters. */
  class FatVolume {
    const fat: EntryTable
    const clusterSize: nat
    const firstClusterPos: nat
    var freeInfoValid: bool
    var clusterCount: nat           // FatInfoSector.FreeInfo.ClusterCount, a UINT32
    var nextCluster: nat            // FatInfoSector.FreeInfo.NextCluster, a UINT32

    ghost function Footprint(): set<object> {
      {this} + fat.Footprint()
    }

    ghost predicate Valid()
      reads Footprint()
    {
      && this !in fat.Footprint() && fat.Valid()
      && |fat.table| == fat.maxCluster + 2 < Special(fat.fatType) + 1
      && fat.io.fatCache != fat.io.dataCache && |fat.io.dataCache.content| == fat.io.volumeSize - fat.io.rootPos
      && clusterSize > 0 && fat.io.rootPos <= firstClusterPos
      && firstClusterPos + PagePos(clusterSize, fat.maxCluster) <= fat.io.volumeSize <= VOLUME_LIMIT
      && FAT_MIN_CLUSTER <= nextCluster && clusterCount < UINT32_LIMIT
    }

    /** The free count is exact whenever it is flagged valid. */
    ghost predicate FreeInfoExact()
      reads this, fat
    {
      freeInfoValid ==> clusterCount == FreeCount(fat.table)
    }

    /** The state FatOpenDevice leaves; the free count may come from the information sector of FAT32. */
    constructor (entries: EntryTable, size: nat, firstCluster: nat, hint: nat, valid: bool, count: nat)
      requires entries.Valid() && size > 0 && entries.io.rootPos <= firstCluster
      requires firstCluster + PagePos(size, entries.maxCluster) <= entries.io.volumeSize
      requires FAT_MIN_CLUSTER <= hint && count < UINT32_LIMIT
      ensures Valid() && fat == entries && freeInfoValid == valid && clusterCount == count
      ensures clusterSize == size && firstClusterPos == firstCluster && nextCluster == hint
    {
      fat, clusterSize, firstClusterPos := entries, size, firstCluster;
      freeInfoValid, clusterCount, nextCluster := valid, count, hint;
    }

    /**
     The bookkeeping at the top of FatSetFatEntry, before `value` is stored at `index` of table `t`: an exact
     count stays exact, and if no cluster below the hint was free then none is afterwards.
     */
    method CountChange(index: nat, value: nat, originalVal: nat, ghost t: seq<nat>)
      requires FAT_MIN_CLUSTER <= index < |t| < UINT32_LIMIT && t[index] == originalVal && clusterCount < UINT32_LIMIT
      modifies this`clusterCount, this`nextCluster
      ensures clusterCount < UINT32_LIMIT
      ensures old(clusterCount) == FreeCount(t) ==> clusterCount == FreeCount(t[index := value])
      ensures NoneFreeBelow(t, old(nextCluster)) ==> NoneFreeBelow(t[index := value], nextCluster)
      ensures nextCluster == old(nextCluster) || (nextCluster == index < old(nextCluster) && value == FAT_CLUSTER_FREE)
      ensures value == FAT_CLUSTER_FREE && originalVal != FAT_CLUSTER_FREE ==> nextCluster <= index
      ensures value == FAT_CLUSTER_FREE && originalVal == FAT_CLUSTER_FREE ==> nextCluster == old(nextCluster)
    {
      FreeFromUpdate(t, FAT_MIN_CLUSTER, index, value);
      FreeFromBound(t, FAT_MIN_CLUSTER);
      FreeFromZero(t, FAT_MIN_CLUSTER);
      if value == FAT_CLUSTER_FREE && originalVal != FAT_CLUSTER_FREE {
        clusterCount := (clusterCount + 1) % UINT32_LIMIT;
        if index < nextCluster {
          nextCluster := index;
        }
      } else if value != FAT_CLUSTER_FREE && originalVal == FAT_CLUSTER_FREE {
        if clusterCount != 0 {
          clusterCount := clusterCount - 1;
        }
      }
    }

    /** FatSetFatEntry: one entry of the table changes, the free count follows it. */
    method SetFatEntry(index: nat, value: nat) returns (status: Status)
      requires Valid() && index <= fat.maxCluster + 1 && Storable(fat.fatType, value)
      modifies this`clusterCount, this`nextCluster, fat, fat.io`disk, fat.io`diskError, fat.io.fatCache
      ensures Valid() && (old(FreeInfoExact()) ==> FreeInfoExact())
      ensures index < FAT_MIN_CLUSTER ==>
        status == EFI_VOLUME_CORRUPTED && fat.table == old(fat.table) && nextCluster == old(nextCluster)
      ensures index >= FAT_MIN_CLUSTER ==>
        && status == EFI_SUCCESS && fat.table == old(fat.table)[index := value]
        && nextCluster == (if value == FAT_CLUSTER_FREE && old(fat.table[index]) != FAT_CLUSTER_FREE && index < old(nextCluster)
                           then index else old(nextCluster))
        && (NoneFreeBelow(old(fat.table), old(nextCluster)) ==> NoneFreeBelow(fat.table, nextCluster))
    {
      hide EntryTable.Valid;
      if index < FAT_MIN_CLUSTER {
        return EFI_VOLUME_CORRUPTED;
      }
      var originalVal := fat.GetFatEntry(index);
      CountChange(index, value, originalVal, fat.table);
      status := fat.StoreFatEntry(index, value);
    }

    /** FatComputeFreeInfo: an untrusted count is recomputed, the hint moves to the lowest free cluster. */
    method ComputeFreeInfo()
      requires Valid()
      modifies this`freeInfoValid, this`clusterCount, this`nextCluster, fat, fat.io`disk, fat.io`diskError, fat.io.fatCache
      ensures Valid() && fat.table == old(fat.table) && freeInfoValid
      ensures old(freeInfoValid) ==> clusterCount == old(clusterCount) && nextCluster == old(nextCluster)
      ensures !old(freeInfoValid) ==> clusterCount == FreeCount(fat.table)
      ensures !old(freeInfoValid) ==>
        nextCluster == if FirstFree(fat.table, FAT_MIN_CLUSTER) < |fat.table| then FirstFree(fat.table, FAT_MIN_CLUSTER) else old(nextCluster)
    {
      hide EntryTable.Valid;
      if !freeInfoValid {
        freeInfoValid, clusterCount := true, 0;
        var index := fat.maxCluster + 1;
        while index >= FAT_MIN_CLUSTER
          invariant Valid() && fat.table == old(fat.table) && freeInfoValid
          invariant 1 <= index <= fat.maxCluster + 1
          invariant clusterCount == FreeFrom(fat.table, index + 1)
          invariant nextCluster == if FirstFree(fat.table, index + 1) < |fat.table| then FirstFree(fat.table, index + 1) else old(nextCluster)
        {
          FreeFromBound(fat.table, index);
          var entry := fat.GetFatEntry(index);
          if entry == FAT_CLUSTER_FREE {
            clusterCount := clusterCount + 1;
            nextCluster := index;
          }
          index := index - 1;
        }
      }
    }

    /** The end-of-table branch of FatAllocateCluster: distrust a positive count, recompute, look again. */
    method Rescan()
      requires Valid() && FreeInfoExact() && nextCluster > fat.maxCluster + 1
      modifies this`freeInfoValid, this`clusterCount, this`nextCluster, fat, fat.io`disk, fat.io`diskError, fat.io.fatCache
      ensures Valid() && FreeInfoExact() && fat.table == old(fat.table)
      ensures FirstFree(fat.table, FAT_MIN_CLUSTER) < |fat.table| ==> nextCluster == FirstFree(fat.table, FAT_MIN_CLUSTER)
      ensures FirstFree(fat.table, FAT_MIN_CLUSTER) >= |fat.table| ==> nextCluster == old(nextCluster)
    {
      hide EntryTable.Valid;
      FreeFromBound(fat.table, FAT_MIN_CLUSTER);
      if freeInfoValid && 0 < clusterCount < INT32_LIMIT {
        freeInfoValid := false;
      }
      FreeFromZero(fat.table, FAT_MIN_CLUSTER);
      ComputeFreeInfo();
    }

    /** FatAllocateCluster: next fit, wrapping to a full rescan at most once, failing only on a full volume. */
    method AllocateCluster() returns (cluster: nat)
      requires Valid() && FreeInfoExact()
      modifies this`freeInfoValid, this`clusterCount, this`nextCluster, fat, fat.io`disk, fat.io`diskError, fat.io.fatCache
      ensures Valid() && FreeInfoExact() && fat.table == old(fat.table)
      ensures cluster == NextFit(fat.table, old(nextCluster))
      ensures cluster != FAT_CLUSTER_LAST ==> nextCluster == cluster + 1
    {
      hide EntryTable.Valid;
      ghost var wrapped := false;
      while true
        invariant Valid() && FreeInfoExact() && fat.table == old(fat.table)
        invariant if wrapped then nextCluster == NextFit(fat.table, old(nextCluster)) < |fat.table|
                  else SameFirstFree(fat.table, old(nextCluster), nextCluster)
        decreases !wrapped, |fat.table| - nextCluster
      {
        if nextCluster > fat.maxCluster + 1 {
          Rescan();
          if nextCluster > fat.maxCluster + 1 {
            return FAT_CLUSTER_LAST;
          }
          wrapped := true;
        }
        var entry := fat.GetFatEntry(nextCluster);
        if entry == FAT_CLUSTER_FREE {
          break;
        }
        nextCluster := nextCluster + 1;
      }
      cluster := nextCluster;
      nextCluster := nextCluster + 1;
    }

    /** FatFreeClusters on a chain: exactly its entries become free. */
    method FreeClusters(start: nat, ghost chain: seq<nat>) returns (status: Status)
      requires Valid() && Distinct(chain) && Linked(fat.table, start, chain)
      modifies this`clusterCount, this`nextCluster, fat, fat.io`disk, fat.io`diskError, fat.io.fatCache
      ensures Valid() && (old(FreeInfoExact()) ==> FreeInfoExact())
      ensures status == EFI_SUCCESS && fat.table == Freed(old(fat.table), chain)
    {
      hide EntryTable.Valid;
      var cluster: nat := start;
      ghost var k := 0;
      assert chain[0..] == chain;
      while !EndOfFatChain(cluster)
        invariant 0 <= k <= |chain| && Valid() && (old(FreeInfoExact()) ==> FreeInfoExact())
        invariant Linked(fat.table, cluster, chain[k..]) && fat.table == Freed(old(fat.table), chain[..k])
        decreases |chain| - k
      {
        assert k < |chain|;
        if cluster == FAT_CLUSTER_FREE || cluster >= FAT_CLUSTER_SPECIAL {
          assert false;
          return EFI_VOLUME_CORRUPTED;
        }
        var lastCluster := cluster;
        ghost var before := fat.table;
        cluster := fat.GetFatEntry(cluster);
        var ignored := SetFatEntry(lastCluster, FAT_CLUSTER_FREE);
        assert chain[k..][1..] == chain[k + 1..] && chain[..k + 1] == chain[..k] + [chain[k]];
        LinkedFrame(before, fat.table, cluster, chain[k + 1..]);
        k := k + 1;
      }
      assert chain[k..] == [];
      assert chain[..k] == chain;
      status := EFI_SUCCESS;
    }
  }
}
