/**
 FatPkg/EnhancedFatDxe/ReadWrite.c: byte access to an open file through runs of consecutive clusters,
 expansion with zero bytes, and the file-level read and write.
 */
module ReadWrite {
  import opened Bytes
  import opened PageCache
  import opened DiskCache
  import opened FatTable
  import opened FatEntries
  import opened FileSpace
  import opened FileBytes
  import opened Clusters
  import opened OpenFile

  const FAT_MAX_ALLOCATE_SIZE: nat := 0xA00000

  /** An access of `buffer` at `pos` of the file, and of nothing else in the data region. */
  ghost predicate FileAccessed(write: bool, before: seq<byte>, after: seq<byte>, places: seq<nat>, pos: nat, buffer: seq<byte>, result: seq<byte>)
    requires Within(places, |before|)
  {
    && OnlyAt(before, after, places)
    && Accessed(write, Gather(before, places), Gather(after, places), pos, buffer, result)
  }

  lemma {:induction false} FileAccessedInTwo(write: bool, s: seq<byte>, s1: seq<byte>, s2: seq<byte>, places: seq<nat>, pos: nat, buffer: seq<byte>, k: nat, n: nat, r1: seq<byte>, r2: seq<byte>)
    requires Within(places, |s|) && k <= n <= |buffer|
    requires FileAccessed(write, s, s1, places, pos, buffer[..k], r1)
    requires FileAccessed(write, s1, s2, places, pos + k, buffer[k..n], r2)
    ensures FileAccessed(write, s, s2, places, pos, buffer[..n], r1 + r2)
  {
    assert buffer[..n][..k] == buffer[..k] && buffer[..n][k..] == buffer[k..n];
    AccessedInTwo(write, Gather(s, places), Gather(s1, places), Gather(s2, places), pos, buffer[..n], k, r1, r2);
  }

  lemma {:induction false} RunAccessed(write: bool, before: seq<byte>, after: seq<byte>, places: seq<nat>, pos: nat, buffer: seq<byte>, result: seq<byte>)
    requires Within(places, |before|) && Distinct(places) && buffer != [] && Contiguous(places, pos, |buffer|)
    requires Accessed(write, before, after, places[pos], buffer, result)
    ensures FileAccessed(write, before, after, places, pos, buffer, result)
  {
    GatherAccessed(write, before, after, places, pos, buffer, result);
  }

  /** The disk access of FatAccessOFile, inside the run FatOFilePosition found. */
  method RunIo(f: OFile, write: bool, pos: nat, buffer: seq<byte>) returns (status: Status, result: seq<byte>)
    requires f.Valid() && f.FixedRootFits() && buffer != [] && Contiguous(f.Places(), pos, |buffer|)
    requires f.posDisk == f.volume.fat.io.rootPos + f.Places()[pos]
    requires f.Places()[pos] + |buffer| <= |f.volume.fat.io.dataCache.content|
    modifies f`dirty, f`archive, f.volume.fat.io`disk, f.volume.fat.io`diskError, f.volume.fat.io.dataCache
    ensures f.Valid() && status == EFI_SUCCESS
    ensures Within(f.Places(), |old(f.volume.fat.io.dataCache.content)|)
    ensures FileAccessed(write, old(f.volume.fat.io.dataCache.content), f.volume.fat.io.dataCache.content, f.Places(), pos, buffer, result)
    ensures if write then f.dirty && f.archive else f.dirty == old(f.dirty) && f.archive == old(f.archive)
  {
    hide EntryTable.Valid, Linked, Distinct, Within, IsChain, Gather, FileAccessed;
    f.PlacesOk();
    ghost var content := f.volume.fat.io.dataCache.content;
    status, result := f.volume.fat.DataIo(write, f.posDisk, buffer);
    RunAccessed(write, content, f.volume.fat.io.dataCache.content, f.Places(), pos, buffer, result);
    if write {
      f.dirty, f.archive := true, true;
    }
  }

  /** The part of a request of `len` bytes at `pos` that lies in the first `n` bytes, if it starts there. */
  function Reached(n: nat, pos: nat, len: nat): nat {
    if pos + len <= n then len else if pos < n then n - pos else 0
  }

  /**
   The request runs past the last cluster of the chain, and the first byte it cannot find is in the cluster
   that would come next.
   */
  ghost predicate Strays(f: OFile, pos: nat, len: nat)
    reads f.Footprint()
    requires f.ChainOk()
  {
    len > 0 && pos + len > |f.Places()| && f.PastEnd(pos + Reached(|f.Places()|, pos, len))
  }

  /** The reachable part of a request, and nothing else, has been done. */
  ghost predicate PartAccessed(write: bool, before: seq<byte>, after: seq<byte>, places: seq<nat>, pos: nat, buffer: seq<byte>, result: seq<byte>)
    requires Within(places, |before|)
  {
    if pos > |places| then after == before && result == []
    else FileAccessed(write, before, after, places, pos, buffer[..Reached(|places|, pos, |buffer|)], result)
  }

  /**
   One round of FatAccessOFile: seek, clip to the run, access the disk. The round ends before the disk
   access, with `stray`, if the seek has left the file at the end mark of its chain.
   */
  method AccessRun(f: OFile, write: bool, pos: nat, buffer: seq<byte>) returns (status: Status, len: nat, result: seq<byte>, stray: bool)
    requires f.Valid() && f.FixedRootFits() && buffer != [] && (f.isFixedRootDir ==> pos + |buffer| <= f.fileSize)
    modifies f`posDisk, f`fileCurrentCluster, f`position, f`posRem, f`cursor, f`dirty, f`archive
    modifies f.volume.fat, f.volume.fat.io`disk, f.volume.fat.io`diskError, f.volume.fat.io.fatCache, f.volume.fat.io.dataCache
    ensures f.ChainOk() && f.volume.fat.table == old(f.volume.fat.table) && Within(f.Places(), |old(f.volume.fat.io.dataCache.content)|)
    ensures if stray then f.Lost(pos) else f.Valid()
    ensures stray == f.PastEnd(pos)
    ensures !stray ==> status == if pos < |f.Places()| then EFI_SUCCESS else EFI_VOLUME_CORRUPTED
    ensures if pos < |f.Places()| then
              && 0 < len <= |buffer| && pos + len <= |f.Places()|
              && FileAccessed(write, old(f.volume.fat.io.dataCache.content), f.volume.fat.io.dataCache.content, f.Places(), pos, buffer[..len], result)
            else len == 0 && result == [] && f.volume.fat.io.dataCache.content == old(f.volume.fat.io.dataCache.content)
    ensures if write && len > 0 then f.dirty && f.archive else f.dirty == old(f.dirty) && f.archive == old(f.archive)
  {
    hide EntryTable.Valid, Linked, Distinct, Within, MaximalRun, Contiguous, IsChain, Gather, FileAccessed;
    len, result, stray := 0, [], false;
    f.PlacesOk();
    f.PastEndIsOutside(pos);
    f.EndMarkEnds();
    status := f.OFilePosition(pos, |buffer|);
    if status != EFI_SUCCESS {
      return;
    }
    if !f.isFixedRootDir && EndOfFatChain(f.fileCurrentCluster) {
      stray := true;
      return;
    }
    len := if |buffer| > f.posRem then f.posRem else |buffer|;
    RunClipped(f.Places(), pos, f.posRem, |buffer|, len, |f.volume.fat.io.dataCache.content|);
    ContiguousFits(f.Places(), pos, len);
    status, result := RunIo(f, write, pos, buffer[..len]);
  }

  lemma {:induction false} ContiguousFits(places: seq<nat>, pos: nat, len: nat)
    requires Contiguous(places, pos, len)
    ensures pos + len <= |places|
  {
  }

  /**
   FatAccessOFile. The part of the request that lies in the clusters of the file is read or written, and
   nothing else. What is left over is a corrupted volume, or stray: then the driver is about to access
   the disk at the position it computed from the end mark.
   */
  method AccessOFile(f: OFile, write: bool, pos: nat, buffer: seq<byte>) returns (status: Status, done: nat, result: seq<byte>, stray: bool)
    requires f.Valid() && f.FixedRootFits() && (f.isFixedRootDir ==> pos + |buffer| <= f.fileSize)
    modifies f`posDisk, f`fileCurrentCluster, f`position, f`posRem, f`cursor, f`dirty, f`archive
    modifies f.volume.fat, f.volume.fat.io`disk, f.volume.fat.io`diskError, f.volume.fat.io.fatCache, f.volume.fat.io.dataCache
    ensures f.ChainOk() && f.volume.fat.table == old(f.volume.fat.table) && f.Places() == old(f.Places())
    ensures Within(f.Places(), |old(f.volume.fat.io.dataCache.content)|)
    ensures done == Reached(|f.Places()|, pos, |buffer|) && stray == Strays(f, pos, |buffer|)
    ensures if stray then f.Lost(pos + done) else f.Valid()
    ensures !stray ==> status == if done == |buffer| then EFI_SUCCESS else EFI_VOLUME_CORRUPTED
    ensures PartAccessed(write, old(f.volume.fat.io.dataCache.content), f.volume.fat.io.dataCache.content, f.Places(), pos, buffer, result)
    ensures if write && done > 0 then f.dirty && f.archive else f.dirty == old(f.dirty) && f.archive == old(f.archive)
  {
    hide EntryTable.Valid, FatVolume.Valid, Linked, Distinct, FileAccessed, Gather, IsChain, PagePos, PageNumber, Within;
    ghost var content, places := f.volume.fat.io.dataCache.content, f.Places();
    f.PlacesOk();
    if pos <= |places| { FileAccessedNothing(write, content, places, pos); }
    status, done, result, stray := EFI_SUCCESS, 0, [], false;
    assert buffer[..0] == [];
    while done < |buffer|
      invariant done <= |buffer| && (done > 0 ==> pos + done <= |places|) && status == EFI_SUCCESS && !stray
      invariant f.Valid() && f.volume.fat.table == old(f.volume.fat.table)
      invariant if pos > |places| then f.volume.fat.io.dataCache.content == content && result == []
                else FileAccessed(write, content, f.volume.fat.io.dataCache.content, places, pos, buffer[..done], result)
      invariant if write && done > 0 then f.dirty && f.archive else f.dirty == old(f.dirty) && f.archive == old(f.archive)
    {
      ghost var now := f.volume.fat.io.dataCache.content;
      var len, part;
      status, len, part, stray := AccessRun(f, write, pos + done, buffer[done..]);
      if status != EFI_SUCCESS || stray {
        return;
      }
      assert buffer[done..][..len] == buffer[done..done + len];
      FileAccessedInTwo(write, content, now, f.volume.fat.io.dataCache.content, places, pos, buffer, done, done + len, result, part);
      result := result + part;
      done := done + len;
    }
  }

  lemma {:induction false} FileAccessedNothing(write: bool, s: seq<byte>, places: seq<nat>, pos: nat)
    requires Within(places, |s|) && pos <= |places|
    ensures FileAccessed(write, s, s, places, pos, [], [])
  {
    AccessedNothing(write, Gather(s, places), pos);
  }

  // ----- growth seen from the bytes of the file

  function Zeros(n: nat): (r: seq<byte>)
    ensures |r| == n
  {
    seq(n, _ => 0)
  }

  /** The clusters a growth to `newSize` has to find. */
  function Needed(clusterSize: nat, oldSize: nat, newSize: nat): nat
    requires clusterSize > 0
  {
    var cur, new_ := SizeToClusters(clusterSize, oldSize), SizeToClusters(clusterSize, newSize);
    if new_ <= cur then 0 else new_ - cur
  }

  /** The one shortage FatGrowEof does not notice; see OpenFile.OFile.GrowEof. */
  predicate OneShort(free: nat, need: nat) {
    free > 0 && free + 1 == need
  }

  /** `inDoubt` says that the driver has counted the clusters and found that the size asks for others. */
  function GrowthStatus(free: nat, need: nat, newSize: nat, inDoubt: bool): Status {
    if newSize > MAX_FILE_SIZE then EFI_UNSUPPORTED
    else if need == 0 then EFI_SUCCESS
    else if inDoubt then EFI_VOLUME_CORRUPTED
    else OFile.GrowStatus(free, need)
  }

  /** The first `n` clusters stay, and no cluster of another file is taken. */
  ghost predicate Keeps(table0: seq<nat>, chain0: seq<nat>, n: nat, chain: seq<nat>) {
    && n <= |chain0| && n <= |chain| && chain[..n] == chain0[..n]
    && forall c :: 0 <= c < |table0| && table0[c] != FAT_CLUSTER_FREE && c !in chain0 ==> c !in chain
  }

  lemma {:induction false} GrownKeeps(table0: seq<nat>, chain0: seq<nat>, k: nat, table: seq<nat>, chain: seq<nat>)
    requires Grown(table0, chain0, k, table, chain)
    ensures Keeps(table0, chain0, |chain0|, chain)
  {
    hide FreeFrom;
    forall c | 0 <= c < |table0| && table0[c] != FAT_CLUSTER_FREE && c !in chain0 ensures c !in chain {
      assert forall j :: 0 <= j < |chain0| ==> chain[j] == chain0[j];
    }
  }

  function Min(a: nat, b: nat): nat {
    if a <= b then a else b
  }

  lemma {:induction false} CutKeeps(table0: seq<nat>, chain0: seq<nat>, n: nat, full: seq<nat>, m: nat, t: seq<nat>, table: seq<nat>, chain: seq<nat>)
    requires Keeps(table0, chain0, n, full) && Cut(t, full, m, table, chain)
    ensures Keeps(table0, chain0, Min(n, m), chain)
  {
    assert forall c :: c in chain ==> c in full;
    assert chain[..Min(n, m)] == full[..n][..Min(n, m)];
  }

  /** A growth adds clusters at the end; one that fails keeps at least the clusters the size asked for. */
  lemma {:induction false} GrowthKeeps(table0: seq<nat>, chain0: seq<nat>, cur: nat, need: nat, table: seq<nat>, chain: seq<nat>)
    requires GrowthOutcome(table0, chain0, cur, need, table, chain)
    ensures Keeps(table0, chain0, Min(cur, |chain0|), chain)
    ensures OFile.GrowStatus(FreeCount(table0), need) == EFI_SUCCESS ==>
      && Keeps(table0, chain0, |chain0|, chain)
      && |chain| == |chain0| + need - if OneShort(FreeCount(table0), need) then 1 else 0
    ensures OFile.GrowStatus(FreeCount(table0), need) != EFI_SUCCESS && cur == |chain0| ==> chain == chain0
  {
    hide Keeps, Cut, Restored, FreeCount;
    var free := FreeCount(table0);
    if free >= need {
      GrownKeeps(table0, chain0, need, table, chain);
      KeepsLess(table0, chain0, |chain0|, chain, cur);
    } else if free + 1 == need && free > 0 {
      GrownKeeps(table0, chain0, free, table, chain);
      KeepsLess(table0, chain0, |chain0|, chain, cur);
    } else {
      RolledBackKeeps(table0, chain0, cur, table, chain);
    }
  }

  lemma {:induction false} KeepsLess(table0: seq<nat>, chain0: seq<nat>, n: nat, chain: seq<nat>, m: nat)
    requires Keeps(table0, chain0, n, chain)
    ensures Keeps(table0, chain0, Min(m, n), chain)
  {
    assert chain[..Min(m, n)] == chain[..n][..Min(m, n)];
  }

  lemma {:induction false} KeepsAll(table: seq<nat>, chain: seq<nat>, n: nat)
    requires n <= |chain|
    ensures Keeps(table, chain, n, chain)
  {
  }

  lemma {:induction false} RolledBackKeeps(table0: seq<nat>, chain0: seq<nat>, cur: nat, table: seq<nat>, chain: seq<nat>)
    requires RolledBack(table0, chain0, cur, table, chain)
    ensures Keeps(table0, chain0, Min(cur, |chain0|), chain)
  {
    hide Keeps, Cut, Restored;
    var t, full :| Exhausted(table0, chain0, t, full) && if cur <= |full| then Cut(t, full, cur, table, chain) else table == t && chain == full;
    if FreeCount(table0) == 0 { KeepsAll(table0, chain0, |chain0|); } else { GrownKeeps(table0, chain0, FreeCount(table0), t, full); }
    if cur <= |full| { CutKeeps(table0, chain0, |chain0|, full, cur, t, table, chain); } else { KeepsLess(table0, chain0, |chain0|, full, cur); }
  }

  lemma {:induction false} GatherPrefix(data: seq<byte>, places: seq<nat>, more: seq<nat>)
    requires Within(places, |data|) && Within(more, |data|) && |places| <= |more| && more[..|places|] == places
    ensures Gather(data, more)[..|places|] == Gather(data, places)
  {
    assert forall i :: 0 <= i < |places| ==> more[i] == places[i];
  }

  /** The clusters of the file that its size asks for. */
  ghost function KeptClusters(f: OFile): nat
    reads f, f.volume
    requires f.volume.clusterSize > 0
  {
    Min(SizeToClusters(f.volume.clusterSize, f.fileSize), |f.chain|)
  }

  predicate SamePrefix(before: seq<byte>, after: seq<byte>, n: nat) {
    n <= |before| && n <= |after| && after[..n] == before[..n]
  }

  lemma {:induction false} BytesKept(f: OFile, table0: seq<nat>, chain0: seq<nat>, n: nat, places0: seq<nat>)
    requires f.Valid() && f.FixedRootFits() && !f.isFixedRootDir && InTable(table0, chain0) && Keeps(table0, chain0, n, f.chain)
    requires places0 == ChainPlaces(f.volume.firstClusterPos - f.volume.fat.io.rootPos, f.volume.clusterSize, chain0)
    requires Within(places0, |f.volume.fat.io.dataCache.content|)
    ensures SamePrefix(Gather(f.volume.fat.io.dataCache.content, places0), f.Bytes(), PagePos(f.volume.clusterSize, n))
  {
    hide Linked, EntryTable.Valid, Distinct, FreeCount;
    var first, cs := f.volume.firstClusterPos - f.volume.fat.io.rootPos, f.volume.clusterSize;
    f.PlacesOk();
    ChainInTable(f.volume.fat.table, f.fileCluster, f.chain);
    PlacesPrefix(first, cs, chain0, n);
    PlacesPrefix(first, cs, f.chain, n);
    GatherPrefix(f.volume.fat.io.dataCache.content, places0[..PagePos(cs, n)], places0);
    GatherPrefix(f.volume.fat.io.dataCache.content, places0[..PagePos(cs, n)], f.Places());
  }

  /** The driver has counted the clusters of the file, and there are not as many as its size asks for. */
  ghost predicate InDoubt(f: OFile)
    reads f.Footprint()
    requires f.ChainOk()
  {
    f.chain != [] && f.fileLastCluster == 0 && !f.Sized()
  }

  /**
   FatGrowEof seen from the bytes of the file: the old bytes stay where they are and new ones follow. A growth
   that is refused keeps the bytes the old size promised.
   */
  method Grow(f: OFile, newSize: nat) returns (status: Status)
    requires f.Valid() && f.volume.FreeInfoExact() && !f.isFixedRootDir && f.fileSize <= newSize
    modifies f, f.volume, f.volume.fat, f.volume.fat.io`disk, f.volume.fat.io`diskError, f.volume.fat.io.fatCache
    ensures f.Valid() && f.volume.FreeInfoExact() && f.archive == old(f.archive)
    ensures var free, need := FreeCount(old(f.volume.fat.table)), Needed(f.volume.clusterSize, old(f.fileSize), newSize);
            && status == GrowthStatus(free, need, newSize, old(InDoubt(f)))
            && (status == EFI_SUCCESS ==> |f.chain| == |old(f.chain)| + need - if OneShort(free, need) then 1 else 0)
    ensures f.fileSize == if status == EFI_SUCCESS then newSize else old(f.fileSize)
    ensures var n := if status == EFI_SUCCESS then |old(f.chain)| else old(KeptClusters(f));
            Keeps(old(f.volume.fat.table), old(f.chain), n, f.chain) && SamePrefix(old(f.Bytes()), f.Bytes(), PagePos(f.volume.clusterSize, n))
    ensures old(f.Sized()) && status != EFI_SUCCESS ==> f.chain == old(f.chain)
  {
    hide EntryTable.Valid, Linked, Distinct, Within, GrowthOutcome, Keeps, FreeCount, FirstFree, Cut, Gather, SizeToClusters, PagePos;
    ghost var table0, chain0, places0, size0 := f.volume.fat.table, f.chain, f.Places(), f.fileSize;
    ghost var cur, new_ := SizeToClusters(f.volume.clusterSize, size0), SizeToClusters(f.volume.clusterSize, newSize);
    f.PlacesOk();
    ChainInTable(table0, f.fileCluster, chain0);
    KeepsAll(table0, chain0, |chain0|);
    KeepsLess(table0, chain0, |chain0|, chain0, cur);
    SizeToClustersGrows(f.volume.clusterSize, size0, newSize);
    status := f.GrowEof(newSize);
    if newSize <= MAX_FILE_SIZE && cur < new_ {
      if status == EFI_VOLUME_CORRUPTED {
        if cur <= |chain0| { CutKeeps(table0, chain0, |chain0|, chain0, cur, table0, f.volume.fat.table, f.chain); }
      } else {
        GrowthKeeps(table0, chain0, cur, new_ - cur, f.volume.fat.table, f.chain);
      }
    }
    BytesKept(f, table0, chain0, if status == EFI_SUCCESS then |chain0| else Min(cur, |chain0|), places0);
  }

  lemma {:induction false} ZerosPrefix(n: nat, k: nat)
    requires k <= n
    ensures Zeros(n)[..k] == Zeros(k)
  {
  }

  /** Zeros already written, and one more access that writes zeros. */
  lemma {:induction false} MoreZeros(s: seq<byte>, s1: seq<byte>, s2: seq<byte>, places: seq<nat>, pos: nat, k: nat, n: nat, result: seq<byte>)
    requires Within(places, |s|) && FileAccessed(true, s, s1, places, pos, Zeros(k), Zeros(k))
    requires FileAccessed(true, s1, s2, places, pos + k, Zeros(n), result)
    ensures FileAccessed(true, s, s2, places, pos, Zeros(k + n), Zeros(k + n))
  {
    var whole := Zeros(k + n);
    assert whole[..k] == Zeros(k) && whole[k..k + n] == Zeros(n) && whole[..k + n] == whole;
    FileAccessedInTwo(true, s, s1, s2, places, pos, whole, k, k + n, Zeros(k), result);
  }

  /** The reachable part of the file from `pos` on holds zeros, and nothing else has changed. */
  ghost predicate Zeroed(before: seq<byte>, after: seq<byte>, places: seq<nat>, pos: nat, len: nat)
    requires Within(places, |before|)
  {
    if pos > |places| then after == before
    else FileAccessed(true, before, after, places, pos, Zeros(Reached(|places|, pos, len)), Zeros(Reached(|places|, pos, len)))
  }

  lemma {:induction false} ZeroedMore(s: seq<byte>, s1: seq<byte>, s2: seq<byte>, places: seq<nat>, pos: nat, k: nat, n: nat, buffer: seq<byte>, result: seq<byte>)
    requires Within(places, |s|) && Within(places, |s1|) && buffer == Zeros(n) && (k > 0 ==> pos + k <= |places|)
    requires Zeroed(s, s1, places, pos, k) && PartAccessed(true, s1, s2, places, pos + k, buffer, result)
    ensures Zeroed(s, s2, places, pos, k + n)
  {
    if pos <= |places| {
      var r := Reached(|places|, pos + k, n);
      ZerosPrefix(n, r);
      MoreZeros(s, s1, s2, places, pos, k, r, result);
    }
  }

  /**
   FatWriteZeroPool: the file from `startPos` to its end becomes zeros, at most FAT_MAX_ALLOCATE_SIZE at a
   time. A file whose chain is too short comes to the same end as in one access of all the zeros.
   */
  method WriteZeroPool(f: OFile, startPos: nat) returns (status: Status, stray: bool)
    requires f.Valid() && !f.isFixedRootDir && startPos <= f.fileSize
    modifies f`posDisk, f`fileCurrentCluster, f`position, f`posRem, f`cursor, f`dirty, f`archive
    modifies f.volume.fat, f.volume.fat.io`disk, f.volume.fat.io`diskError, f.volume.fat.io.fatCache, f.volume.fat.io.dataCache
    ensures f.ChainOk() && f.volume.fat.table == old(f.volume.fat.table) && (!stray ==> f.Valid())
    ensures f.Places() == old(f.Places()) && Within(f.Places(), |old(f.volume.fat.io.dataCache.content)|)
    ensures stray == Strays(f, startPos, f.fileSize - startPos)
    ensures !stray ==> status == if startPos == f.fileSize || f.fileSize <= |f.Places()| then EFI_SUCCESS else EFI_VOLUME_CORRUPTED
    ensures Zeroed(old(f.volume.fat.io.dataCache.content), f.volume.fat.io.dataCache.content, f.Places(), startPos, f.fileSize - startPos)
  {
    hide EntryTable.Valid, FatVolume.Valid, Linked, Distinct, FileAccessed, Gather, Zeros, Within, Zeroed, PartAccessed, IsChain, OFile.Places, PageNumber, PagePos;
    ghost var content, places := f.volume.fat.io.dataCache.content, f.Places();
    var writePos: nat, appendedSize: nat := startPos, f.fileSize - startPos;
    f.PlacesOk();
    ZeroedNothing(content, places, startPos);
    var bufferSize := if appendedSize > FAT_MAX_ALLOCATE_SIZE then FAT_MAX_ALLOCATE_SIZE else appendedSize;
    var zeroBuffer := Zeros(bufferSize);
    status, stray := EFI_SUCCESS, false;
    while true
      invariant startPos <= writePos && writePos + appendedSize == f.fileSize && (writePos > startPos ==> writePos <= |places|)
      invariant f.Valid() && f.volume.fat.table == old(f.volume.fat.table) && f.Places() == places
      invariant bufferSize > 0 || appendedSize == 0
      invariant Zeroed(content, f.volume.fat.io.dataCache.content, places, startPos, writePos - startPos)
      invariant status == EFI_SUCCESS && !stray && (appendedSize == 0 ==> writePos == startPos)
      decreases appendedSize
    {
      var writeSize: nat := if appendedSize > bufferSize then bufferSize else appendedSize;
      appendedSize := appendedSize - writeSize;
      f.PlacesOk();
      ghost var now, asked := f.volume.fat.io.dataCache.content, writeSize;
      ZerosPrefix(bufferSize, writeSize);
      var written;
      status, writeSize, written, stray := AccessOFile(f, true, writePos, zeroBuffer[..writeSize]);
      ZeroedMore(content, now, f.volume.fat.io.dataCache.content, places, startPos, writePos - startPos, asked, Zeros(asked), written);
      if status != EFI_SUCCESS || stray {
        ZeroedCut(content, f.volume.fat.io.dataCache.content, places, startPos, writePos - startPos + asked, f.fileSize - startPos);
        return;
      }
      writePos := writePos + writeSize;
      if appendedSize == 0 {
        break;
      }
    }
  }

  lemma {:induction false} ZeroedNothing(s: seq<byte>, places: seq<nat>, pos: nat)
    requires Within(places, |s|)
    ensures Zeroed(s, s, places, pos, 0)
  {
    assert Zeros(0) == [];
    if pos <= |places| { FileAccessedNothing(true, s, places, pos); }
  }

  /** A request that is already cut off reaches no further when it is longer. */
  lemma {:induction false} ZeroedCut(s: seq<byte>, s': seq<byte>, places: seq<nat>, pos: nat, len: nat, more: nat)
    requires Within(places, |s|) && Zeroed(s, s', places, pos, len) && pos + len > |places| && len <= more
    ensures Zeroed(s, s', places, pos, more)
  {
  }

  lemma {:induction false} SizeFits(f: OFile)
    requires f.ChainOk() && f.Sized() && !f.isFixedRootDir
    ensures f.fileSize <= |f.Places()|
  {
    SizeToClustersIsCeiling(f.volume.clusterSize, f.fileSize);
  }

  lemma {:induction false} ExpandedBytes(before: seq<byte>, after: seq<byte>, old_: seq<byte>, places: seq<nat>, size0: nat, size: nat)
    requires Within(places, |before|) && SamePrefix(old_, Gather(before, places), |old_|) && size0 <= |old_| && size0 <= size
    requires Zeroed(before, after, places, size0, size - size0)
    ensures Within(places, |after|) && OnlyAt(before, after, places)
    ensures size0 <= Min(size, |places|)
    ensures Gather(after, places)[..Min(size, |places|)] == old_[..size0] + Zeros(Min(size, |places|) - size0)
  {
    assert old_[..size0] == Gather(before, places)[..|old_|][..size0];
  }

  lemma {:induction false} ZeroedOnly(before: seq<byte>, after: seq<byte>, places: seq<nat>, pos: nat, len: nat)
    requires Within(places, |before|) && Zeroed(before, after, places, pos, len)
    ensures OnlyAt(before, after, places)
  {
  }

  /**
   For a file that has the clusters its size asks for: after a growth that is reported as done, the size is
   covered, and an access up to the new end stays in the file, unless the growth fell one cluster short.
   */
  lemma {:induction false} GrownFits(f: OFile, oldSize: nat, free: nat, pos: nat)
    requires f.ChainOk() && !f.isFixedRootDir && oldSize <= f.fileSize && pos <= f.fileSize
    requires var cs := f.volume.clusterSize;
             var need := Needed(cs, oldSize, f.fileSize);
             |f.chain| == SizeToClusters(cs, oldSize) + need - if OneShort(free, need) then 1 else 0
    ensures var short := OneShort(free, Needed(f.volume.clusterSize, oldSize, f.fileSize));
            && (f.Sized() <==> !short)
            && (!short ==> f.fileSize <= |f.Places()|)
            && (Strays(f, pos, f.fileSize - pos) <==> short && pos < f.fileSize)
  {
    hide EntryTable.Valid, Linked, Distinct, PagePos, PageNumber, FatVolume.Valid;
    var cs := f.volume.clusterSize;
    assert cs > 0;
    SizeToClustersGrows(cs, oldSize, f.fileSize);
    hide SizeToClusters;
    if OneShort(free, Needed(cs, oldSize, f.fileSize)) {
      ShortOfSize(cs, f.fileSize, |f.chain|, pos);
    } else {
      SizeToClustersIsCeiling(cs, f.fileSize);
    }
  }

  lemma {:induction false} ShortOfSize(cs: nat, size: nat, clusters: nat, pos: nat)
    requires cs > 0 && SizeToClusters(cs, size) == clusters + 1 && pos <= size
    ensures PagePos(cs, clusters) < size
    ensures pos < size ==> PageNumber(cs, pos + Reached(PagePos(cs, clusters), pos, size - pos)) == clusters
  {
    hide SizeToClusters, PageNumber;
    SizeToClustersIsCeiling(cs, size);
    if pos < size {
      PagePosNext(cs, clusters);
      PageNumberIs(cs, pos + Reached(PagePos(cs, clusters), pos, size - pos), clusters);
    }
  }

  /** FatExpandOFile: the old contents, then zeros up to the new size, or up to the end of the chain. */
  method ExpandOFile(f: OFile, expandedSize: nat) returns (status: Status, stray: bool)
    requires f.Valid() && f.volume.FreeInfoExact() && !f.isFixedRootDir && f.fileSize <= expandedSize
    modifies f, f.volume, f.volume.fat, f.volume.fat.io`disk, f.volume.fat.io`diskError, f.volume.fat.io.fatCache, f.volume.fat.io.dataCache
    ensures f.ChainOk() && f.volume.FreeInfoExact() && (!stray ==> f.Valid())
    ensures var free, need := FreeCount(old(f.volume.fat.table)), Needed(f.volume.clusterSize, old(f.fileSize), expandedSize);
            var grown := GrowthStatus(free, need, expandedSize, old(InDoubt(f)));
            && f.fileSize == (if grown == EFI_SUCCESS then expandedSize else old(f.fileSize))
            && stray == (grown == EFI_SUCCESS && Strays(f, old(f.fileSize), expandedSize - old(f.fileSize)))
            && (!stray ==> status == if grown != EFI_SUCCESS || expandedSize == old(f.fileSize) || expandedSize <= |f.Places()| then grown else EFI_VOLUME_CORRUPTED)
            && (old(f.Sized()) ==> stray == (grown == EFI_SUCCESS && OneShort(free, need)))
            && (old(f.Sized()) && grown == EFI_SUCCESS && !stray ==> f.Sized() && expandedSize <= |f.Bytes()|)
            && (grown != EFI_SUCCESS ==> f.volume.fat.io.dataCache.content == old(f.volume.fat.io.dataCache.content))
            && Keeps(old(f.volume.fat.table), old(f.chain), if grown == EFI_SUCCESS then |old(f.chain)| else old(KeptClusters(f)), f.chain)
            && (grown == EFI_SUCCESS && old(f.fileSize <= |f.Bytes()|) ==>
                  && old(f.fileSize) <= Min(expandedSize, |f.Bytes()|)
                  && f.Bytes()[..Min(expandedSize, |f.Bytes()|)]
                     == old(f.Bytes()[..f.fileSize]) + Zeros(Min(expandedSize, |f.Bytes()|) - old(f.fileSize)))
    ensures OnlyAt(old(f.volume.fat.io.dataCache.content), f.volume.fat.io.dataCache.content, f.Places())
  {
    hide EntryTable.Valid, Linked, Distinct, FileAccessed, Keeps, Zeros, Within, FreeCount, Gather, OnlyAt, IsChain, FreeFrom, Zeroed, Strays, PagePos, SizeToClusters;
    ghost var content, bytes0, chain0 := f.volume.fat.io.dataCache.content, f.Bytes(), f.chain;
    ghost var free, need := FreeCount(f.volume.fat.table), Needed(f.volume.clusterSize, f.fileSize, expandedSize);
    var writePos := f.fileSize;
    status := Grow(f, expandedSize);
    stray := false;
    f.PlacesOk();
    OnlyAtNothing(content, f.Places());
    if status == EFI_SUCCESS {
      status, stray := WriteZeroPool(f, writePos);
      if |chain0| == SizeToClusters(f.volume.clusterSize, writePos) { GrownFits(f, writePos, free, writePos); }
      ZeroedOnly(content, f.volume.fat.io.dataCache.content, f.Places(), writePos, expandedSize - writePos);
      if writePos <= |bytes0| {
        ExpandedBytes(content, f.volume.fat.io.dataCache.content, bytes0, f.Places(), writePos, expandedSize);
      }
    }
  }

  // ----- the file interface

  /** What a write means for the file: the buffer at its place, every old byte elsewhere kept. */
  ghost predicate Written(before: seq<byte>, after: seq<byte>, pos: nat, buffer: seq<byte>) {
    && |before| <= |after| && (buffer != [] ==> pos + |buffer| <= |after| && after[pos..pos + |buffer|] == buffer)
    && forall i :: 0 <= i < |before| && !(pos <= i < pos + |buffer|) ==> after[i] == before[i]
  }

  lemma {:induction false} WriteAfterGrowth(before: seq<byte>, s: seq<byte>, s': seq<byte>, places: seq<nat>, pos: nat, buffer: seq<byte>, result: seq<byte>)
    requires Within(places, |s|) && SamePrefix(before, Gather(s, places), |before|)
    requires PartAccessed(true, s, s', places, pos, buffer, result)
    ensures Within(places, |s'|) && OnlyAt(s, s', places)
    ensures Written(before, Gather(s', places), pos, buffer[..Reached(|places|, pos, |buffer|)])
  {
    var grown, part := Gather(s, places), buffer[..Reached(|places|, pos, |buffer|)];
    assert forall i :: 0 <= i < |before| ==> grown[i] == before[i];
    if pos <= |places| { SpliceAt(grown, pos, part); }
  }

  lemma {:induction false} ReadPart(s: seq<byte>, s': seq<byte>, places: seq<nat>, pos: nat, buffer: seq<byte>, result: seq<byte>)
    requires Within(places, |s|) && PartAccessed(false, s, s', places, pos, buffer, result)
    ensures Within(places, |s'|) && Gather(s', places) == Gather(s, places) && |result| == Reached(|places|, pos, |buffer|)
    ensures result != [] ==> result == Gather(s, places)[pos..pos + |result|]
  {
  }

  /** The write part of GrownFits, for writes that do not grow the file as well. */
  lemma {:induction false} WriteFits(f: OFile, oldSize: nat, free: nat, pos: nat, len: nat)
    requires f.ChainOk() && !f.isFixedRootDir && f.fileSize == if pos + len > oldSize then pos + len else oldSize
    requires var cs := f.volume.clusterSize;
             var need := Needed(cs, oldSize, pos + len);
             |f.chain| == SizeToClusters(cs, oldSize) + if pos + len <= oldSize then 0 else need - if OneShort(free, need) then 1 else 0
    ensures var short := OneShort(free, Needed(f.volume.clusterSize, oldSize, pos + len));
            && (f.Sized() <==> !short) && (!short ==> pos + len <= |f.Places()|) && (Strays(f, pos, len) <==> short && len > 0)
  {
    hide EntryTable.Valid, FatVolume.Valid, Linked, Distinct, PagePos, PageNumber;
    assert f.volume.clusterSize > 0;
    if pos + len > oldSize {
      GrownFits(f, oldSize, free, pos);
    } else {
      SizeToClustersGrows(f.volume.clusterSize, pos + len, oldSize);
      SizeFits(f);
    }
  }

  /** The same for a handle, with an end that may have wrapped around. */
  lemma {:induction false} WriteSized(f: OFile, oldSize: nat, free: nat, pos: nat, len: nat, clusters: nat)
    requires f.ChainOk() && f.FixedRootFits() && !f.isFixedRootDir && pos < UINTN_LIMIT && len < UINTN_LIMIT
    requires var end := EndPosition(pos, len);
             var need := Needed(f.volume.clusterSize, oldSize, end);
             && f.fileSize == (if end > oldSize then end else oldSize)
             && |f.chain| == clusters + if end <= oldSize then 0 else need - if OneShort(free, need) then 1 else 0
    ensures pos + len >= UINTN_LIMIT ==> Reached(|f.Places()|, pos, len) < len
    ensures var short := OneShort(free, Needed(f.volume.clusterSize, oldSize, EndPosition(pos, len)));
            clusters == SizeToClusters(f.volume.clusterSize, oldSize) ==>
              && (f.Sized() <==> !short)
              && (pos + len < UINTN_LIMIT ==> (Strays(f, pos, len) <==> short && len > 0) && (!Strays(f, pos, len) ==> Reached(|f.Places()|, pos, len) == len))
  {
    hide EntryTable.Valid, Linked, Distinct, PagePos, PageNumber, SizeToClusters, Strays;
    if pos + len >= UINTN_LIMIT { WrappedIsCut(f, pos, len); }
    if clusters == SizeToClusters(f.volume.clusterSize, oldSize) {
      if pos + len < UINTN_LIMIT { WriteFits(f, oldSize, free, pos, len); } else { WriteFits(f, oldSize, free, 0, EndPosition(pos, len)); }
    }
  }

  lemma {:induction false} NothingWritten(f: OFile)
    requires f.Valid() && !f.isFixedRootDir
    ensures OnlyAt(f.volume.fat.io.dataCache.content, f.volume.fat.io.dataCache.content, f.Places())
    ensures Keeps(f.volume.fat.table, f.chain, |f.chain|, f.chain) && Keeps(f.volume.fat.table, f.chain, KeptClusters(f), f.chain)
    ensures SamePrefix(f.Bytes(), f.Bytes(), PagePos(f.volume.clusterSize, KeptClusters(f))) && SamePrefix(f.Bytes(), f.Bytes(), |f.Bytes()|)
  {
    if KeptClusters(f) < |f.chain| { PageOrder(f.volume.clusterSize, KeptClusters(f), |f.chain|); }
  }

  lemma {:induction false} ReadFits(f: OFile, pos: nat, len: nat)
    requires f.ChainOk() && f.Sized() && !f.isFixedRootDir && pos + len <= f.fileSize
    ensures Reached(|f.Places()|, pos, len) == len && !Strays(f, pos, len)
  {
    SizeFits(f);
  }

  /** Different numbers below `n` are at most `n`. */
  lemma {:induction false} DistinctFits(s: seq<nat>, n: nat)
    requires Distinct(s) && Within(s, n)
    ensures |s| <= n
    decreases n
  {
    if s != [] {
      assert s[0] < n;
      if i :| 0 <= i < |s| && s[i] == n - 1 {
        var rest := s[..i] + s[i + 1..];
        assert forall j :: 0 <= j < |rest| ==> rest[j] == s[if j < i then j else j + 1] != s[i];
        DistinctFits(rest, n - 1);
      } else {
        DistinctFits(s, n - 1);
      }
    }
  }

  /** No file is larger than the volume. */
  lemma {:induction false} PlacesCount(f: OFile)
    requires f.ChainOk() && f.FixedRootFits()
    ensures |f.Places()| <= VOLUME_LIMIT
  {
    f.PlacesOk();
    DistinctFits(f.Places(), |f.volume.fat.io.dataCache.content|);
  }

  /** IFile->Position + *BufferSize, in UINT64 arithmetic. */
  function EndPosition(position: nat, size: nat): (r: nat)
    requires position < UINTN_LIMIT && size < UINTN_LIMIT
    ensures r == if position + size < UINTN_LIMIT then position + size else position + size - UINTN_LIMIT
  {
    if position + size >= UINTN_LIMIT then
      QuotientIsUnique(UINTN_LIMIT, 1, position + size - UINTN_LIMIT);
      (position + size) % UINTN_LIMIT
    else (position + size) % UINTN_LIMIT
  }

  lemma {:induction false} ReachedEnd(f: OFile, pos: nat, len: nat)
    requires f.ChainOk() && f.FixedRootFits() && pos < UINTN_LIMIT
    ensures pos + Reached(|f.Places()|, pos, len) < UINTN_LIMIT
  {
    PlacesCount(f);
  }

  /** A request whose end has wrapped around is not carried out in full. */
  lemma {:induction false} WrappedIsCut(f: OFile, pos: nat, len: nat)
    requires f.ChainOk() && f.FixedRootFits() && pos + len >= UINTN_LIMIT > pos
    ensures Reached(|f.Places()|, pos, len) < len
  {
    PlacesCount(f);
  }

  /** A read whose end has wrapped around is not clipped, and runs past the end of the chain. */
  lemma {:induction false} WrappedReadStrays(f: OFile, pos: nat, len: nat)
    requires f.ChainOk() && f.FixedRootFits() && f.Sized() && !f.isFixedRootDir
    requires pos <= f.fileSize && len < UINTN_LIMIT <= pos + len
    ensures Strays(f, pos, len)
  {
    hide EntryTable.Valid, Linked, Distinct, PagePos, PageNumber, SizeToClusters;
    SizeFits(f);
    PlacesCount(f);
    PagePosNext(f.volume.clusterSize, 0);
    PageNumberIs(f.volume.clusterSize, |f.Places()|, |f.chain|);
  }

  /** FAT_IFILE: one open handle on a file that is not a directory. */
  class IFile {
    const oFile: OFile
    const readOnly: bool
    var position: nat               // a UINT64

    constructor (f: OFile, ro: bool)
      ensures oFile == f && readOnly == ro && position == 0
    {
      oFile, readOnly, position := f, ro, 0;
    }

    ghost predicate Ready()
      reads this, oFile.Footprint()
    {
      && this !in oFile.Footprint() && oFile.Valid() && !oFile.isFixedRootDir && oFile.volume.FreeInfoExact()
      && position < UINTN_LIMIT && oFile.fileSize <= MAX_FILE_SIZE
    }

    /** FatSetPosition: any position, and the end of the file for the largest one. */
    method SetPosition(pos: nat)
      requires Ready() && pos < UINTN_LIMIT
      modifies this`position
      ensures Ready() && position == if pos == UINTN_LIMIT - 1 then oFile.fileSize else pos
    {
      position := if pos == UINTN_LIMIT - 1 then oFile.fileSize else pos;
    }

    /**
     FatIFileAccess with READ_DATA: the bytes from the position on, clipped to the file size exactly if the end of
     the request does not wrap around.
     */
    method Read(bufferSize: nat) returns (status: Status, result: seq<byte>, stray: bool)
      requires Ready() && bufferSize < UINTN_LIMIT
      modifies this`position, oFile`posDisk, oFile`fileCurrentCluster, oFile`position, oFile`posRem, oFile`cursor, oFile`dirty, oFile`archive
      modifies oFile.volume.fat, oFile.volume.fat.io`disk, oFile.volume.fat.io`diskError, oFile.volume.fat.io.fatCache, oFile.volume.fat.io.dataCache
      ensures oFile.ChainOk() && (!stray ==> Ready())
      ensures oFile.Bytes() == old(oFile.Bytes()) && oFile.volume.fat.table == old(oFile.volume.fat.table)
      ensures position == old(position) + (if stray then 0 else |result|)
      ensures old(position) > oFile.fileSize ==> status == EFI_DEVICE_ERROR && result == [] && !stray
      ensures old(position) <= oFile.fileSize ==>
        var wraps := old(position) + bufferSize >= UINTN_LIMIT;
        var size := if wraps then bufferSize else Min(bufferSize, oFile.fileSize - old(position));
        && |result| == Reached(|oFile.Bytes()|, old(position), size) && stray == Strays(oFile, old(position), size)
        && (!stray ==> status == if |result| == size then EFI_SUCCESS else EFI_VOLUME_CORRUPTED)
        && (result != [] ==> result == oFile.Bytes()[old(position)..old(position) + |result|])
        && (oFile.Sized() ==> (stray <==> wraps) && (|result| == size <==> !wraps))
    {
      hide EntryTable.Valid, Linked, Distinct, PartAccessed, SizeToClusters, Gather, IsChain, PagePos, PageNumber, Within, Strays, Reached;
      if position > oFile.fileSize {
        return EFI_DEVICE_ERROR, [], false;
      }
      var endPosition := EndPosition(position, bufferSize);
      var size := bufferSize;
      if endPosition > oFile.fileSize {
        size := size - (endPosition - oFile.fileSize);
      }
      ghost var content, wraps := oFile.volume.fat.io.dataCache.content, position + bufferSize >= UINTN_LIMIT;
      var done;
      status, done, result, stray := AccessOFile(oFile, false, position, seq(size, _ => 0));
      ReadPart(content, oFile.volume.fat.io.dataCache.content, oFile.Places(), position, seq(size, _ => 0), result);
      if wraps { WrappedIsCut(oFile, position, size); }
      if oFile.Sized() { if wraps { WrappedReadStrays(oFile, position, size); } else { ReadFits(oFile, position, size); } }
      if stray {
        return;
      }
      ReachedEnd(oFile, position, size);
      position := position + done;
    }

    /** What the growth at the start of a write reports. */
    ghost function WriteGrowth(newSize: nat): Status
      reads this, oFile.Footprint()
      requires Ready()
    {
      if newSize <= oFile.fileSize then EFI_SUCCESS
      else GrowthStatus(FreeCount(oFile.volume.fat.table), Needed(oFile.volume.clusterSize, oFile.fileSize, newSize), newSize, InDoubt(oFile))
    }

    /** The growth at the start of FatIFileAccess with WRITE_DATA. */
    method GrowToEnd(endPosition: nat) returns (status: Status)
      requires Ready()
      modifies oFile, oFile.volume, oFile.volume.fat, oFile.volume.fat.io`disk, oFile.volume.fat.io`diskError, oFile.volume.fat.io.fatCache
      ensures Ready() && status == old(WriteGrowth(endPosition))
      ensures oFile.fileSize == if status == EFI_SUCCESS && endPosition > old(oFile.fileSize) then endPosition else old(oFile.fileSize)
      ensures var free, need := FreeCount(old(oFile.volume.fat.table)), Needed(oFile.volume.clusterSize, old(oFile.fileSize), endPosition);
              if status == EFI_SUCCESS then
                && |oFile.chain| == |old(oFile.chain)| + (if endPosition <= old(oFile.fileSize) then 0 else need - if OneShort(free, need) then 1 else 0)
                && Keeps(old(oFile.volume.fat.table), old(oFile.chain), |old(oFile.chain)|, oFile.chain)
                && SamePrefix(old(oFile.Bytes()), oFile.Bytes(), |old(oFile.Bytes())|)
              else Refused(old(oFile.volume.fat.table), old(oFile.chain), old(oFile.Bytes()), old(KeptClusters(oFile)), old(oFile.Sized()))
    {
      hide EntryTable.Valid, Linked, Distinct, Keeps, FreeCount, Gather, Within, IsChain, SizeToClusters, PagePos;
      NothingWritten(oFile);
      status := EFI_SUCCESS;
      if endPosition > oFile.fileSize {
        status := Grow(oFile, endPosition);
      }
    }

    /** What a write that is not carried out leaves of the file. */
    ghost predicate Refused(table0: seq<nat>, chain0: seq<nat>, before: seq<byte>, kept: nat, sized: bool)
      reads this, oFile.Footprint()
      requires Ready()
    {
      && Keeps(table0, chain0, kept, oFile.chain) && SamePrefix(before, oFile.Bytes(), PagePos(oFile.volume.clusterSize, kept))
      && (sized ==> oFile.chain == chain0 && oFile.Bytes() == before)
    }

    /**
     FatIFileAccess with WRITE_DATA: the file grows as far as the write reaches. `stray` stands for a write
     that goes on outside the file; for a file that has the clusters its size asks for, that is exactly the
     write whose growth fell one cluster short. If the end of the write wraps around, the file grows to the
     wrapped end and the write is not carried out.
     */
    method Write(buffer: seq<byte>, volumeReadOnly: bool) returns (status: Status, done: nat, stray: bool)
      requires Ready() && |buffer| < UINTN_LIMIT
      modifies this`position, oFile, oFile.volume, oFile.volume.fat, oFile.volume.fat.io`disk, oFile.volume.fat.io`diskError
      modifies oFile.volume.fat.io.fatCache, oFile.volume.fat.io.dataCache
      ensures oFile.ChainOk() && oFile.volume.FreeInfoExact() && (!stray ==> Ready())
      ensures OnlyAt(old(oFile.volume.fat.io.dataCache.content), oFile.volume.fat.io.dataCache.content, oFile.Places())
      ensures position == old(position) + (if stray then 0 else done)
      ensures var grown := old(WriteGrowth(EndPosition(position, |buffer|)));
              !stray ==> status == if volumeReadOnly then EFI_WRITE_PROTECTED else if readOnly then EFI_ACCESS_DENIED else if grown != EFI_SUCCESS then grown
                                   else if done == |buffer| then EFI_SUCCESS else EFI_VOLUME_CORRUPTED
      ensures volumeReadOnly || readOnly ==> oFile.volume.fat.table == old(oFile.volume.fat.table) && oFile.chain == old(oFile.chain)
      ensures if volumeReadOnly || readOnly || old(WriteGrowth(EndPosition(position, |buffer|))) != EFI_SUCCESS then
                && done == 0 && !stray && oFile.fileSize == old(oFile.fileSize)
                && oFile.volume.fat.io.dataCache.content == old(oFile.volume.fat.io.dataCache.content)
                && Refused(old(oFile.volume.fat.table), old(oFile.chain), old(oFile.Bytes()), old(KeptClusters(oFile)), old(oFile.Sized()))
              else
                var end := EndPosition(old(position), |buffer|);
                var wraps, size := old(position) + |buffer| >= UINTN_LIMIT, old(oFile.fileSize);
                var free, need := FreeCount(old(oFile.volume.fat.table)), Needed(oFile.volume.clusterSize, size, end);
                && done == Reached(|oFile.Bytes()|, old(position), |buffer|) && stray == Strays(oFile, old(position), |buffer|)
                && oFile.fileSize == (if end > size then end else size)
                && |oFile.chain| == |old(oFile.chain)| + (if end <= size then 0 else need - if OneShort(free, need) then 1 else 0)
                && Written(old(oFile.Bytes()), oFile.Bytes(), old(position), buffer[..done])
                && Keeps(old(oFile.volume.fat.table), old(oFile.chain), |old(oFile.chain)|, oFile.chain)
                && (wraps ==> done < |buffer|)
                && (old(oFile.Sized()) ==> (oFile.Sized() <==> !OneShort(free, need)))
                && (old(oFile.Sized()) && !wraps ==> (stray <==> OneShort(free, need) && buffer != []) && (!stray ==> done == |buffer|))
                && (old(oFile.Sized()) && !OneShort(free, need) ==> (done == |buffer| && oFile.fileSize >= old(position) + |buffer| <==> !wraps))
    {
      hide EntryTable.Valid, Linked, Distinct, Keeps, FreeCount, Gather, Within, IsChain, FileAccessed, OnlyAt, Written, SizeToClusters, PagePos, PartAccessed, Strays, Reached;
      done, stray := 0, false;
      ghost var table0, chain0, before, size0 := oFile.volume.fat.table, oFile.chain, oFile.Bytes(), oFile.fileSize;
      ghost var content := oFile.volume.fat.io.dataCache.content;
      NothingWritten(oFile);
      if volumeReadOnly {
        return EFI_WRITE_PROTECTED, 0, false;
      }
      if readOnly {
        return EFI_ACCESS_DENIED, 0, false;
      }
      var endPosition := EndPosition(position, |buffer|);
      status := GrowToEnd(endPosition);
      if status != EFI_SUCCESS {
        OnlyAtNothing(content, oFile.Places());
        return;
      }
      oFile.PlacesOk();
      var echoed;
      status, done, echoed, stray := AccessOFile(oFile, true, position, buffer);
      WriteAfterGrowth(before, content, oFile.volume.fat.io.dataCache.content, oFile.Places(), position, buffer, echoed);
      WriteSized(oFile, size0, FreeCount(table0), position, |buffer|, |chain0|);
      ReachedEnd(oFile, position, |buffer|);
      if stray {
        return;
      }
      position := position + done;
    }
  }

  lemma {:induction false} FirstCluster(cs: nat, n: nat, size: nat)
    requires n > 0 && PagePos(cs, n - 1) < size <= cs
    ensures n == 1
  {
    hide PagePos;
    if n > 1 { PageOrder(cs, 0, n - 1); }
  }

  /** An empty file, position 2^64 - 16 and 32 bytes, by the numbers: the end is 16, for which one cluster is needed. */
  lemma {:induction false} WrapNumbers(cs: nat)
    requires 16 <= cs <= VOLUME_LIMIT
    ensures EndPosition(UINTN_LIMIT - 16, 32) == 16 && SizeToClusters(cs, 0) == 0 && Needed(cs, 0, 16) == 1
    ensures Reached(PagePos(cs, 1), UINTN_LIMIT - 16, 32) == 0 && PageNumber(cs, UINTN_LIMIT - 16) != 1
  {
    PagePosNext(cs, 0);
    PagePosNext(cs, 1);
    SizeToClustersIsCeiling(cs, 0);
    SizeToClustersIsCeiling(cs, 16);
    hide SizeToClusters, PagePos;
    FirstCluster(cs, SizeToClusters(cs, 16), 16);
    PageBelow(cs, UINTN_LIMIT - 16, 2);
  }

  /** That write takes a cluster, leaves a file of size 16 and reports a corrupted volume without having moved a byte. */
  method WrapExample(h: IFile, buffer: seq<byte>) returns (status: Status, done: nat, stray: bool)
    requires h.Ready() && !h.readOnly && h.oFile.chain == [] && h.oFile.fileSize == 0 && h.position == UINTN_LIMIT - 16 && |buffer| == 32
    requires h.oFile.volume.clusterSize >= 16 && FreeCount(h.oFile.volume.fat.table) >= 2 && h.oFile.volume.clusterSize <= VOLUME_LIMIT
    modifies h`position, h.oFile, h.oFile.volume, h.oFile.volume.fat, h.oFile.volume.fat.io`disk, h.oFile.volume.fat.io`diskError
    modifies h.oFile.volume.fat.io.fatCache, h.oFile.volume.fat.io.dataCache
    ensures status == EFI_VOLUME_CORRUPTED && done == 0 && !stray && h.position == UINTN_LIMIT - 16
    ensures h.Ready() && h.oFile.fileSize == 16 && |h.oFile.chain| == 1
  {
    hide EntryTable.Valid, Linked, Distinct, Keeps, FreeCount, Gather, Within, IsChain, OnlyAt, Written, SizeToClusters, PagePos, PageNumber, Reached, Needed, EndPosition;
    WrapNumbers(h.oFile.volume.clusterSize);
    status, done, stray := h.Write(buffer, false);
  }
}
