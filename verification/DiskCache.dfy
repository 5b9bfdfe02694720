/**
 FatPkg/EnhancedFatDxe/DiskCache.c and the FatDiskIo dispatch of Misc.c, blocking accesses only.
 Each cache is specified by the flat byte array `content` it stands for.
 */
module DiskCache {
  import opened Bytes
  import opened PageCache

  datatype Status = EFI_SUCCESS | EFI_VOLUME_CORRUPTED | EFI_VOLUME_FULL | EFI_UNSUPPORTED
                  | EFI_DEVICE_ERROR | EFI_WRITE_PROTECTED | EFI_ACCESS_DENIED | EFI_NOT_FOUND | EFI_INVALID_PARAMETER

  /** More bytes than 2^32 sectors of any supported size have. */
  const VOLUME_LIMIT: nat := 0x1_0000_0000_0000

  datatype CacheDataType = CACHE_FAT | CACHE_DATA

  /** The number of whole pages FatAccessCache moves without going through the cache. */
  function AlignedPageCount(ps: nat, pos: nat, size: nat): nat
    requires ps > 0
  {
    var underRun := PageOffset(ps, pos);
    var length := if underRun == 0 then 0 else if ps - underRun > size then size else ps - underRun;
    PageNumber(ps, size - length)
  }

  // ----- one page written to several places, `step` bytes apart

  /** The position reached from `start` after `k` steps. */
  function StepPos(start: nat, step: nat, k: nat): (r: nat)
    ensures r >= start
    decreases k
  {
    if k == 0 then start else StepPos(start + step, step, k - 1)
  }

  lemma {:induction false} StepPosOrder(start: nat, step: nat, k: nat, count: nat)
    requires k < count
    ensures StepPos(start, step, k) + step <= StepPos(start, step, count)
    decreases k
  {
    if k > 0 { StepPosOrder(start + step, step, k - 1, count - 1); }
  }

  lemma {:induction false} StepPosIsProduct(start: nat, step: nat, k: nat)
    ensures StepPos(start, step, k) == start + k * step
    decreases k
  {
    if k > 0 {
      StepPosIsProduct(start + step, step, k - 1);
      assert k * step == (k - 1) * step + step;
    }
  }

  ghost predicate Fits(len: nat, pos: nat, step: nat, n: nat, count: nat)
    decreases count
  {
    count > 0 ==> pos + n <= len && Fits(len, pos + step, step, n, count - 1)
  }

  ghost function MirrorWrite(disk: seq<byte>, pos: nat, step: nat, data: seq<byte>, count: nat): (r: seq<byte>)
    requires Fits(|disk|, pos, step, |data|, count)
    ensures |r| == |disk|
    decreases count
  {
    if count == 0 then disk else MirrorWrite(Splice(disk, pos, data), pos + step, step, data, count - 1)
  }

  lemma {:induction false} FitsCopies(len: nat, start: nat, off: nat, step: nat, n: nat, count: nat)
    requires off + n <= step && StepPos(start, step, count) <= len
    ensures Fits(len, start + off, step, n, count)
    decreases count
  {
    if count > 0 {
      StepPosOrder(start, step, 0, count);
      FitsCopies(len, start + step, off, step, n, count - 1);
    }
  }

  /** Nothing before the first place changes. */
  lemma {:induction false} MirrorWriteBefore(disk: seq<byte>, pos: nat, step: nat, data: seq<byte>, count: nat, lo: nat, hi: nat)
    requires Fits(|disk|, pos, step, |data|, count)
    requires lo <= hi <= pos && hi <= |disk|
    ensures MirrorWrite(disk, pos, step, data, count)[lo..hi] == disk[lo..hi]
    decreases count
  {
    if count > 0 {
      SpliceElsewhere(disk, pos, data, lo, hi);
      MirrorWriteBefore(Splice(disk, pos, data), pos + step, step, data, count - 1, lo, hi);
    }
  }

  /** Nothing after the last copy changes. */
  lemma {:induction false} MirrorWriteAfter(disk: seq<byte>, start: nat, off: nat, step: nat, data: seq<byte>, count: nat, lo: nat)
    requires off + |data| <= step && StepPos(start, step, count) <= lo <= |disk|
    requires Fits(|disk|, start + off, step, |data|, count)
    ensures MirrorWrite(disk, start + off, step, data, count)[lo..] == disk[lo..]
    decreases count
  {
    if count > 0 {
      StepPosOrder(start, step, 0, count);
      var disk1 := Splice(disk, start + off, data);
      assert disk1[lo..] == disk[lo..] by { SpliceElsewhere(disk, start + off, data, lo, |disk|); }
      assert start + step + off == start + off + step;
      MirrorWriteAfter(disk1, start + step, off, step, data, count - 1, lo);
    }
  }

  /** Copy `k` receives exactly the write at the same offset. */
  lemma {:induction false} MirrorWriteCopy(disk: seq<byte>, start: nat, off: nat, step: nat, data: seq<byte>, count: nat, k: nat)
    requires k < count && off + |data| <= step && StepPos(start, step, count) <= |disk|
    requires Fits(|disk|, start + off, step, |data|, count)
    ensures StepPos(start, step, k) + step <= |disk|
    ensures MirrorWrite(disk, start + off, step, data, count)[StepPos(start, step, k)..StepPos(start, step, k) + step]
            == Splice(disk[StepPos(start, step, k)..StepPos(start, step, k) + step], off, data)
    decreases count
  {
    StepPosOrder(start, step, k, count);
    var p := StepPos(start, step, k);
    var disk1 := Splice(disk, start + off, data);
    var disk' := MirrorWrite(disk1, start + off + step, step, data, count - 1);
    assert disk' == MirrorWrite(disk, start + off, step, data, count);
    if k == 0 {
      MirrorWriteBefore(disk1, start + off + step, step, data, count - 1, start, start + step);
      SpliceWindow(disk, start + off, data, start, start + step);
    } else {
      assert start + off + step == start + step + off;
      MirrorWriteCopy(disk1, start + step, off, step, data, count - 1, k - 1);
      assert disk'[p..p + step] == Splice(disk1[p..p + step], off, data);
      SpliceElsewhere(disk, start + off, data, p, p + step);
    }
  }

  // ----- DISK_CACHE

  class DiskCache {
    const baseAddress: nat
    const limitAddress: nat
    const pageSize: nat             // 1 << PageAlignment
    var cacheTag: seq<CacheTag>     // GroupMask + 1 tags
    var page: seq<seq<byte>>        // the page buffers at CacheBase + (GroupNo << PageAlignment)
    var dirty: bool
    ghost var region: seq<byte>     // the device bytes [baseAddress, limitAddress)
    ghost var content: seq<byte>    // the same bytes as the callers of the cache see them

    ghost predicate Valid()
      reads this
    {
      && baseAddress <= limitAddress && |region| == limitAddress - baseAddress
      && pageSize > 0 && |cacheTag| > 0 && |content| == |region|
      && Coherent(cacheTag, page, pageSize, region, content)
      && (!dirty ==> forall g :: 0 <= g < |cacheTag| && cacheTag[g].realSize > 0 ==> !cacheTag[g].dirty)
    }

    /** FatInitializeDiskCache, one cache: every group starts unused. */
    constructor (base: nat, limit: nat, ps: nat, groupCount: nat, ghost device: seq<byte>)
      requires base <= limit && |device| == limit - base && ps > 0 && groupCount > 0
      ensures Valid() && region == device && content == device && !dirty
      ensures baseAddress == base && limitAddress == limit && pageSize == ps && |cacheTag| == groupCount
    {
      baseAddress, limitAddress, pageSize := base, limit, ps;
      cacheTag := seq(groupCount, _ => CacheTag(0, 0, false));
      page := seq(groupCount, _ => seq(ps, _ => 0));
      dirty := false;
      region, content := device, device;
    }

    /** A cache whose dirty flag is down hides nothing from the device. */
    lemma {:induction false} CleanOnDisk()
      requires Valid() && !dirty
      ensures region == content
    {
      CleanMeansOnDisk(cacheTag, page, pageSize, region, content);
    }

    /** The place of a used group's page in the region. */
    lemma {:induction false} UsedGroup(g: nat)
      requires Valid() && g < |cacheTag| && cacheTag[g].realSize > 0
      ensures |page| == |cacheTag| && cacheTag[g].realSize <= |page[g]|
      ensures PagePos(pageSize, cacheTag[g].pageNo) + cacheTag[g].realSize <= |region|
    {
      assert TagOk(cacheTag[g], g, |cacheTag|, pageSize, |region|) && |page[g]| == pageSize;
    }

    /** The tag update after a write-back has reached the device. */
    method MarkStored(g: nat)
      requires Valid() && g < |cacheTag| && cacheTag[g].realSize > 0
      modifies this`cacheTag, this`region
      ensures Valid()
      ensures cacheTag == old(cacheTag)[g := old(cacheTag[g]).(dirty := false)]
      ensures var t := old(cacheTag[g]);
              && |page| == |cacheTag| && t.realSize <= |page[g]| && PagePos(pageSize, t.pageNo) + t.realSize <= |old(region)|
              && region == Splice(old(region), PagePos(pageSize, t.pageNo), page[g][..t.realSize])
    {
      UsedGroup(g);
      WriteBack(cacheTag, page, pageSize, region, content, g);
      region := Splice(region, PagePos(pageSize, cacheTag[g].pageNo), page[g][..cacheTag[g].realSize]);
      cacheTag := cacheTag[g := cacheTag[g].(dirty := false)];
    }

    /** The retagging and the buffer update of a page load. */
    method Fill(pageNo: nat, data: seq<byte>)
      requires Valid() && PagePos(pageSize, pageNo) < |region| && data == PageOf(region, pageSize, pageNo)
      requires !Hit(cacheTag, pageNo)
      requires var t := cacheTag[Group(pageNo, |cacheTag|)]; t.realSize > 0 ==> !t.dirty
      modifies this`cacheTag, this`page
      ensures Valid() && |cacheTag| > 0 && Hit(cacheTag, pageNo)
    {
      var g := Group(pageNo, |cacheTag|);
      Load(cacheTag, page, pageSize, region, content, pageNo);
      assert |page[g]| == pageSize;
      cacheTag := cacheTag[g := CacheTag(pageNo, |data|, false)];
      page := page[g := Splice(page[g], 0, data)];
    }

    /** The CopyMem of FatAccessUnalignedCachePage, in either direction, on a page that is in the cache. */
    method CopyHit(write: bool, pageNo: nat, offset: nat, buffer: seq<byte>) returns (result: seq<byte>)
      requires Valid() && PagePos(pageSize, pageNo) < |region| && Hit(cacheTag, pageNo)
      requires offset + |buffer| <= PageLen(|region|, pageSize, pageNo)
      modifies this`cacheTag, this`page, this`dirty, this`content
      ensures Valid()
      ensures Accessed(write, old(content), content, PagePos(pageSize, pageNo) + offset, buffer, result)
    {
      var g := Group(pageNo, |cacheTag|);
      assert |page[g]| == pageSize;
      hide PageCache.Coherent, PagePos, Splice;
      if write {
        WriteHit(cacheTag, page, pageSize, region, content, pageNo, offset, buffer);
        cacheTag := cacheTag[g := cacheTag[g].(dirty := true)];
        dirty := true;
        page := page[g := Splice(page[g], offset, buffer)];
        content := Splice(content, PagePos(pageSize, pageNo) + offset, buffer);
        result := buffer;
      } else {
        ReadHit(cacheTag, page, pageSize, region, content, pageNo, offset, |buffer|);
        result := page[g][offset..offset + |buffer|];
      }
    }

    /** FatFlushDataCacheRange for a direct read: the buffer is overlaid with unsaved pages. */
    method OverlayDirtyPages(startPageNo: nat, endPageNo: nat, buffer: seq<byte>) returns (result: seq<byte>)
      requires Valid() && startPageNo <= endPageNo && |buffer| == PagePos(pageSize, endPageNo - startPageNo)
      requires PagePos(pageSize, startPageNo) + |buffer| <= |region|
      requires buffer == region[PagePos(pageSize, startPageNo)..PagePos(pageSize, startPageNo) + |buffer|]
      ensures result == content[PagePos(pageSize, startPageNo)..PagePos(pageSize, startPageNo) + |buffer|]
    {
      ghost var base := PagePos(pageSize, startPageNo);
      ghost var want := content[base..base + |buffer|];
      result := buffer;
      var pageNo := startPageNo;
      while pageNo < endPageNo
        invariant startPageNo <= pageNo <= endPageNo && PagePos(pageSize, pageNo - startPageNo) <= |buffer|
        invariant result == Overlaid(want, buffer, PagePos(pageSize, pageNo - startPageNo))
      {
        var groupNo := Group(pageNo, |cacheTag|);
        PageOrder(pageSize, pageNo - startPageNo, endPageNo - startPageNo);
        OverlayStep(cacheTag, page, pageSize, region, content, startPageNo, pageNo, want, buffer);
        if cacheTag[groupNo].realSize > 0 && cacheTag[groupNo].pageNo == pageNo && cacheTag[groupNo].dirty {
          result := Splice(result, PagePos(pageSize, pageNo - startPageNo), page[groupNo]);
        }
        assert pageNo + 1 - startPageNo - 1 == pageNo - startPageNo;
        assert PagePos(pageSize, pageNo + 1 - startPageNo) == PagePos(pageSize, pageNo - startPageNo) + pageSize;
        pageNo := pageNo + 1;
      }
    }

    /** The loop of FatFlushDataCacheRange for a direct write. */
    method DropPages(startPageNo: nat, endPageNo: nat)
      requires Shaped(cacheTag, page, pageSize, region) && startPageNo <= endPageNo
      modifies this`cacheTag
      ensures cacheTag == Invalidated(old(cacheTag), startPageNo, endPageNo)
    {
      ghost var tags := cacheTag;
      assert Invalidated(tags, startPageNo, startPageNo) == tags;
      var pageNo := startPageNo;
      while pageNo < endPageNo
        invariant startPageNo <= pageNo <= endPageNo
        invariant cacheTag == Invalidated(tags, startPageNo, pageNo)
      {
        var groupNo := Group(pageNo, |cacheTag|);
        InvalidateStep(tags, page, pageSize, region, startPageNo, pageNo);
        if cacheTag[groupNo].realSize > 0 && cacheTag[groupNo].pageNo == pageNo {
          cacheTag := cacheTag[groupNo := cacheTag[groupNo].(realSize := 0)];
        }
        pageNo := pageNo + 1;
      }
    }

    /** FatFlushDataCacheRange for a direct write: the cached copies of the written pages are dropped. */
    method InvalidatePages(startPageNo: nat, endPageNo: nat, ghost buffer: seq<byte>)
      requires Valid() && startPageNo <= endPageNo && |buffer| == PagePos(pageSize, endPageNo - startPageNo)
      requires PagePos(pageSize, startPageNo) + |buffer| <= |region|
      modifies this`cacheTag, this`region, this`content
      ensures Valid()
      ensures region == Splice(old(region), PagePos(pageSize, startPageNo), buffer)
      ensures content == Splice(old(content), PagePos(pageSize, startPageNo), buffer)
    {
      DirectWrite(cacheTag, page, pageSize, region, content, startPageNo, endPageNo - startPageNo, buffer);
      assert startPageNo + (endPageNo - startPageNo) == endPageNo;
      DropPages(startPageNo, endPageNo);
      region := Splice(region, PagePos(pageSize, startPageNo), buffer);
      content := Splice(content, PagePos(pageSize, startPageNo), buffer);
    }
  }

  // ----- the disk side of FAT_VOLUME

  class Volume {
    const fatPos: nat
    const fatSize: nat
    const numFats: nat
    const rootPos: nat
    const volumeSize: nat
    const fatCache: DiskCache
    const dataCache: DiskCache
    var disk: seq<byte>               // the block device
    var diskError: bool
    ghost var reserved: seq<byte>     // the area before the first FAT
    ghost const mirroredAtMount: bool // whether all FAT copies agreed when the volume was mounted

    ghost function Footprint(): set<object> {
      {this, fatCache, dataCache}
    }

    function Cache(t: CacheDataType): DiskCache {
      if t == CACHE_FAT then fatCache else dataCache
    }

    ghost predicate Layout() {
      && numFats > 0
      && rootPos == StepPos(fatPos, fatSize, numFats) && rootPos <= volumeSize <= VOLUME_LIMIT
      && fatCache.baseAddress == fatPos && fatCache.limitAddress == fatPos + fatSize
      && dataCache.baseAddress == rootPos && dataCache.limitAddress == volumeSize
      && fatCache != dataCache
    }

    /** Copy `k` of the file allocation table as it is on the device. */
    ghost function FatCopy(d: seq<byte>, k: nat): (r: seq<byte>)
      requires Layout() && |d| == volumeSize && k < numFats
      ensures |r| == fatSize
    {
      StepPosOrder(fatPos, fatSize, k, numFats);
      d[StepPos(fatPos, fatSize, k)..StepPos(fatPos, fatSize, k) + fatSize]
    }

    ghost predicate Mirrored(d: seq<byte>)
      requires Layout() && |d| == volumeSize
    {
      forall k :: 0 <= k < numFats ==> FatCopy(d, k) == FatCopy(d, 0)
    }

    /** The device bytes behind each cache, the reserved area and the agreement of the FAT copies. */
    ghost predicate OnDevice(d: seq<byte>, fat: seq<byte>, data: seq<byte>, res: seq<byte>)
      requires Layout() && |d| == volumeSize
    {
      StepPosOrder(fatPos, fatSize, 0, numFats);
      && d[..fatPos] == res && d[fatPos..fatPos + fatSize] == fat && d[rootPos..volumeSize] == data
      && (mirroredAtMount ==> Mirrored(d))
    }

    ghost predicate Valid()
      reads Footprint()
    {
      && Layout() && |disk| == volumeSize && fatCache.Valid() && dataCache.Valid()
      && OnDevice(disk, fatCache.region, dataCache.region, reserved)
    }

    /** Mounting: the caches represent what is on the device. */
    constructor (fp: nat, fs: nat, nf: nat, rp: nat, image: seq<byte>, fatPage: nat, fatGroups: nat, dataPage: nat, dataGroups: nat, ghost agree: bool)
      requires nf > 0 && rp == StepPos(fp, fs, nf) && rp <= |image| <= VOLUME_LIMIT
      requires fatPage > 0 && fatGroups > 0 && dataPage > 0 && dataGroups > 0
      requires agree ==> forall k :: 0 <= k < nf ==>
        StepPos(fp, fs, k) + fs <= |image| && image[StepPos(fp, fs, k)..StepPos(fp, fs, k) + fs] == image[fp..fp + fs]
      ensures fresh(Footprint()) && Valid() && disk == image && !diskError
      ensures fatPos == fp && fatSize == fs && numFats == nf && rootPos == rp && volumeSize == |image|
      ensures fatCache.content == image[fp..fp + fs] && dataCache.content == image[rp..|image|]
      ensures mirroredAtMount == agree && fatCache.pageSize == fatPage && dataCache.pageSize == dataPage
      ensures |fatCache.cacheTag| == fatGroups && |dataCache.cacheTag| == dataGroups
    {
      StepPosOrder(fp, fs, 0, nf);
      var f := new DiskCache(fp, fp + fs, fatPage, fatGroups, image[fp..fp + fs]);
      var d := new DiskCache(rp, |image|, dataPage, dataGroups, image[rp..|image|]);
      fatPos, fatSize, numFats, rootPos, volumeSize := fp, fs, nf, rp, |image|;
      fatCache, dataCache := f, d;
      disk, diskError, reserved := image, false, image[..fp];
      mirroredAtMount := agree;
    }

    /** The range check of FatDiskIo, in UINT64 arithmetic. */
    predicate InRange(offset: nat, size: nat) {
      (offset + size) % UINTN_LIMIT <= volumeSize
    }

    /** The check passes exactly inside the volume and when the sum wraps around into it. */
    lemma {:induction false} InRangeIff(offset: nat, size: nat)
      requires volumeSize <= VOLUME_LIMIT && offset < UINTN_LIMIT && size < UINTN_LIMIT
      ensures InRange(offset, size) <==> offset + size <= volumeSize || UINTN_LIMIT <= offset + size <= UINTN_LIMIT + volumeSize
    {
      if offset + size >= UINTN_LIMIT { QuotientIsUnique(UINTN_LIMIT, 1, offset + size - UINTN_LIMIT); }
    }

    /**
     The uncached branch of FatDiskIo: the range check, then the device, which refuses addresses it does not
     have if the sum has wrapped around.
     */
    method RawDiskIo(write: bool, offset: nat, size: nat, buffer: seq<byte>) returns (status: Status, result: seq<byte>)
      requires |disk| == volumeSize <= VOLUME_LIMIT && |buffer| == size && offset < UINTN_LIMIT && size < UINTN_LIMIT
      modifies this`disk, this`diskError
      ensures |disk| == volumeSize && |result| == size
      ensures status == if offset + size <= volumeSize then EFI_SUCCESS
                        else if UINTN_LIMIT <= offset + size <= UINTN_LIMIT + volumeSize then EFI_INVALID_PARAMETER else EFI_VOLUME_CORRUPTED
      ensures diskError == (old(diskError) || status != EFI_SUCCESS)
      ensures !write || status != EFI_SUCCESS ==> disk == old(disk)
      ensures status != EFI_SUCCESS || write ==> result == buffer
      ensures status == EFI_SUCCESS && write ==> disk == Splice(old(disk), offset, buffer)
      ensures status == EFI_SUCCESS && !write ==> result == disk[offset..offset + size]
    {
      result := buffer;
      InRangeIff(offset, size);
      status := EFI_VOLUME_CORRUPTED;
      if InRange(offset, size) {
        if offset + size > volumeSize {
          status := EFI_INVALID_PARAMETER;
        } else {
          status := EFI_SUCCESS;
          if write {
            disk := Splice(disk, offset, buffer);
          } else {
            result := disk[offset..offset + size];
          }
        }
      }
      if status != EFI_SUCCESS {
        diskError := true;
      }
    }

    ghost function WriteCount(t: CacheDataType): nat {
      if t == CACHE_FAT then numFats else 1
    }

    /** Every FAT copy receives the same write, so copies that agreed still agree. */
    lemma {:induction false} StoreFatMirrors(d: seq<byte>, off: nat, data: seq<byte>)
      requires Layout() && |d| == volumeSize && off + |data| <= fatSize
      requires Fits(|d|, fatPos + off, fatSize, |data|, numFats)
      ensures forall k :: 0 <= k < numFats ==>
        FatCopy(MirrorWrite(d, fatPos + off, fatSize, data, numFats), k) == Splice(FatCopy(d, k), off, data)
    {
      forall k | 0 <= k < numFats
        ensures FatCopy(MirrorWrite(d, fatPos + off, fatSize, data, numFats), k) == Splice(FatCopy(d, k), off, data)
      {
        MirrorWriteCopy(d, fatPos, off, fatSize, data, numFats, k);
      }
    }

    /** A FAT write-back changes the table as one write and leaves the rest of the device alone. */
    lemma {:induction false} StoreFat(d: seq<byte>, off: nat, data: seq<byte>)
      requires Layout() && |d| == volumeSize && off + |data| <= fatSize
      requires Fits(|d|, fatPos + off, fatSize, |data|, numFats)
      ensures fatPos + fatSize <= rootPos
      ensures var d' := MirrorWrite(d, fatPos + off, fatSize, data, numFats);
              && d'[fatPos..fatPos + fatSize] == Splice(d[fatPos..fatPos + fatSize], off, data)
              && d'[..fatPos] == d[..fatPos] && d'[rootPos..volumeSize] == d[rootPos..volumeSize]
              && (Mirrored(d) ==> Mirrored(d'))
    {
      var d' := MirrorWrite(d, fatPos + off, fatSize, data, numFats);
      StepPosOrder(fatPos, fatSize, 0, numFats);
      StoreFatMirrors(d, off, data);
      assert FatCopy(d', 0) == Splice(FatCopy(d, 0), off, data);
      if Mirrored(d) {
        forall k | 0 <= k < numFats ensures FatCopy(d', k) == FatCopy(d', 0) {
          assert FatCopy(d, k) == FatCopy(d, 0);
        }
      }
      MirrorWriteBefore(d, fatPos + off, fatSize, data, numFats, 0, fatPos);
      MirrorWriteAfter(d, fatPos, off, fatSize, data, numFats, rootPos);
    }

    /** A write at or after the root directory leaves every FAT copy and the reserved area alone. */
    lemma {:induction false} StoreData(d: seq<byte>, pos: nat, data: seq<byte>)
      requires Layout() && |d| == volumeSize && rootPos <= pos && pos + |data| <= volumeSize
      ensures var d' := Splice(d, pos, data);
              && d'[fatPos..fatPos + fatSize] == d[fatPos..fatPos + fatSize]
              && d'[..fatPos] == d[..fatPos] && d'[rootPos..volumeSize] == Splice(d[rootPos..volumeSize], pos - rootPos, data)
              && (Mirrored(d) ==> Mirrored(d'))
    {
      var d' := Splice(d, pos, data);
      StepPosOrder(fatPos, fatSize, 0, numFats);
      SpliceElsewhere(d, pos, data, 0, fatPos);
      SpliceElsewhere(d, pos, data, fatPos, fatPos + fatSize);
      SpliceWindow(d, pos, data, rootPos, |d|);
      forall k | 0 <= k < numFats ensures FatCopy(d', k) == FatCopy(d, k) {
        StepPosOrder(fatPos, fatSize, k, numFats);
        SpliceElsewhere(d, pos, data, StepPos(fatPos, fatSize, k), StepPos(fatPos, fatSize, k) + fatSize);
      }
    }

    /** What a write-back of one page does to the device, for either cache. */
    lemma {:induction false} StoreKeepsDevice(d: seq<byte>, t: CacheDataType, off: nat, data: seq<byte>, fat: seq<byte>, dat: seq<byte>, res: seq<byte>)
      requires Layout() && |d| == volumeSize && OnDevice(d, fat, dat, res)
      requires off + |data| <= Cache(t).limitAddress - Cache(t).baseAddress
      ensures Fits(|d|, Cache(t).baseAddress + off, fatSize, |data|, WriteCount(t))
      ensures var d' := MirrorWrite(d, Cache(t).baseAddress + off, fatSize, data, WriteCount(t));
              if t == CACHE_FAT then OnDevice(d', Splice(fat, off, data), dat, res)
              else OnDevice(d', fat, Splice(dat, off, data), res)
    {
      if t == CACHE_FAT {
        FitsCopies(|d|, fatPos, off, fatSize, |data|, numFats);
        StoreFat(d, off, data);
      } else {
        assert Fits(|d|, rootPos + off + fatSize, fatSize, |data|, 0);
        assert MirrorWrite(Splice(d, rootPos + off, data), rootPos + off + fatSize, fatSize, data, 0) == Splice(d, rootPos + off, data);
        StoreData(d, rootPos + off, data);
      }
    }

    /** The do-while loop of FatExchangeCachePage: the same bytes once per copy, FatSize apart. */
    method WriteCopies(pos: nat, data: seq<byte>, count: nat) returns (status: Status)
      requires |disk| == volumeSize <= VOLUME_LIMIT && Fits(|disk|, pos, fatSize, |data|, count)
      modifies this`disk, this`diskError
      ensures status == EFI_SUCCESS && diskError == old(diskError)
      ensures disk == MirrorWrite(old(disk), pos, fatSize, data, count)
    {
      status := EFI_SUCCESS;
      var entryPos: nat, writeCount: nat := pos, count;
      while writeCount > 0
        invariant |disk| == volumeSize && Fits(|disk|, entryPos, fatSize, |data|, writeCount)
        invariant MirrorWrite(old(disk), pos, fatSize, data, count) == MirrorWrite(disk, entryPos, fatSize, data, writeCount)
        invariant status == EFI_SUCCESS && diskError == old(diskError)
      {
        var written;
        status, written := RawDiskIo(true, entryPos, |data|, data);
        entryPos := entryPos + fatSize;
        writeCount := writeCount - 1;
      }
    }

    /** FatExchangeCachePage with WRITE_DISK; the FAT cache repeats the write for every FAT copy. */
    method StoreCachePage(t: CacheDataType, g: nat) returns (status: Status)
      requires Valid() && g < |Cache(t).cacheTag| && Cache(t).cacheTag[g].realSize > 0
      modifies this`disk, this`diskError, Cache(t)`cacheTag, Cache(t)`region
      ensures Valid() && status == EFI_SUCCESS && diskError == old(diskError)
      ensures Cache(t).cacheTag == old(Cache(t).cacheTag)[g := old(Cache(t).cacheTag[g]).(dirty := false)]
    {
      hide PageCache.Coherent;
      var c := Cache(t);
      c.UsedGroup(g);
      var tag, data := c.cacheTag[g], c.page[g][..c.cacheTag[g].realSize];
      StoreKeepsDevice(disk, t, PagePos(c.pageSize, tag.pageNo), data, fatCache.region, dataCache.region, reserved);
      var writeCount: nat := if t == CACHE_FAT then numFats else 1;
      status := WriteCopies(c.baseAddress + PagePos(c.pageSize, tag.pageNo), data, writeCount);
      c.MarkStored(g);
    }

    lemma {:induction false} CacheIsOnDevice(t: CacheDataType)
      requires Valid()
      ensures Cache(t).limitAddress <= volumeSize <= VOLUME_LIMIT
    {
      hide PageCache.Coherent;
      StepPosOrder(fatPos, fatSize, 0, numFats);
    }

    /** FatExchangeCachePage with READ_DISK, together with the retagging that precedes it in FatGetCachePage. */
    method LoadCachePage(t: CacheDataType, pageNo: nat) returns (status: Status)
      requires Valid() && PagePos(Cache(t).pageSize, pageNo) < |Cache(t).region|
      requires !Hit(Cache(t).cacheTag, pageNo)
      requires var tag := Cache(t).cacheTag[Group(pageNo, |Cache(t).cacheTag|)]; tag.realSize > 0 ==> !tag.dirty
      modifies this`disk, this`diskError, Cache(t)`cacheTag, Cache(t)`page
      ensures Valid() && status == EFI_SUCCESS && diskError == old(diskError)
      ensures |Cache(t).cacheTag| > 0 && Hit(Cache(t).cacheTag, pageNo)
    {
      hide PageCache.Coherent, PagePos;
      var c := Cache(t);
      CacheIsOnDevice(t);
      var entryPos := c.baseAddress + PagePos(c.pageSize, pageNo);
      var realSize, maxSize := c.pageSize, c.limitAddress - entryPos;
      if maxSize < realSize {
        realSize := maxSize;
      }
      var data;
      status, data := RawDiskIo(false, entryPos, realSize, seq(realSize, _ => 0));
      SliceOfSlice(disk, c.baseAddress, c.limitAddress, PagePos(c.pageSize, pageNo), realSize);
      c.Fill(pageNo, data);
    }

    /** FatGetCachePage: after it the page is in its group, whatever was there is saved. */
    method GetCachePage(t: CacheDataType, pageNo: nat) returns (status: Status)
      requires Valid() && PagePos(Cache(t).pageSize, pageNo) < |Cache(t).region|
      modifies this`disk, this`diskError, Cache(t)`cacheTag, Cache(t)`page, Cache(t)`region
      ensures Valid() && status == EFI_SUCCESS && diskError == old(diskError)
      ensures |Cache(t).cacheTag| > 0 && Hit(Cache(t).cacheTag, pageNo)
    {
      hide PageCache.Coherent;
      var c := Cache(t);
      var g := Group(pageNo, |c.cacheTag|);
      var tag := c.cacheTag[g];
      if tag.realSize > 0 && tag.pageNo == pageNo {
        return EFI_SUCCESS;
      }
      if tag.realSize > 0 && tag.dirty {
        status := StoreCachePage(t, g);
      }
      status := LoadCachePage(t, pageNo);
    }

    /** FatAccessUnalignedCachePage: part of one page, through the cache. */
    method AccessUnalignedCachePage(t: CacheDataType, write: bool, pageNo: nat, offset: nat, length: nat, buffer: seq<byte>)
      returns (status: Status, result: seq<byte>)
      requires Valid() && |buffer| == length && PagePos(Cache(t).pageSize, pageNo) < |Cache(t).region|
      requires offset + length <= PageLen(|Cache(t).region|, Cache(t).pageSize, pageNo)
      modifies this`disk, this`diskError, Cache(t)
      ensures Valid() && status == EFI_SUCCESS && diskError == old(diskError)
      ensures Accessed(write, old(Cache(t).content), Cache(t).content, PagePos(Cache(t).pageSize, pageNo) + offset, buffer, result)
    {
      hide PageCache.Coherent;
      status := GetCachePage(t, pageNo);
      result := Cache(t).CopyHit(write, pageNo, offset, buffer);
    }

    /** The aligned middle part of FatAccessCache: the device directly, then the cached pages. */
    method AccessAlignedPages(write: bool, pageNo: nat, count: nat, buffer: seq<byte>) returns (status: Status, result: seq<byte>)
      requires Valid() && |buffer| == PagePos(dataCache.pageSize, count)
      requires PagePos(dataCache.pageSize, pageNo) + |buffer| <= |dataCache.region|
      modifies this`disk, this`diskError, dataCache
      ensures Valid() && status == EFI_SUCCESS && diskError == old(diskError)
      ensures Accessed(write, old(dataCache.content), dataCache.content, PagePos(dataCache.pageSize, pageNo), buffer, result)
    {
      hide PageCache.Coherent, Splice, StepPos, MirrorWrite;
      var c := dataCache;
      ghost var pos := PagePos(c.pageSize, pageNo);
      status, result := RawDiskIo(write, rootPos + PagePos(c.pageSize, pageNo), |buffer|, buffer);
      if write {
        assert OnDevice(disk, fatCache.region, Splice(c.region, pos, buffer), reserved) by {
          StoreData(old(disk), rootPos + pos, buffer);
        }
        c.InvalidatePages(pageNo, pageNo + count, buffer);
      } else {
        SliceOfSlice(disk, rootPos, volumeSize, pos, |buffer|);
        result := c.OverlayDirtyPages(pageNo, pageNo + count, result);
      }
    }

    /** FatAccessCache from a page boundary on: whole pages, then the over-run. */
    method AccessFromPage(t: CacheDataType, write: bool, pageNo: nat, size: nat, buffer: seq<byte>) returns (status: Status, result: seq<byte>)
      requires Valid() && |buffer| == size > 0
      requires PagePos(Cache(t).pageSize, pageNo) + size <= |Cache(t).region|
      requires t == CACHE_FAT ==> PageNumber(fatCache.pageSize, size) == 0
      modifies this`disk, this`diskError, Cache(t)
      ensures Valid() && status == EFI_SUCCESS && diskError == old(diskError)
      ensures Accessed(write, old(Cache(t).content), Cache(t).content, PagePos(Cache(t).pageSize, pageNo), buffer, result)
    {
      hide PageCache.Coherent;
      status, result := EFI_SUCCESS, [];
      var c := Cache(t);
      var alignedPageCount := PageNumber(c.pageSize, size);
      var overRunPageNo := pageNo + alignedPageCount;
      var alignedSize := PagePos(c.pageSize, alignedPageCount);
      SplitPosition(c.pageSize, size);
      PageSum(c.pageSize, pageNo, alignedPageCount);
      ghost var pos := PagePos(c.pageSize, pageNo);
      AccessedNothing(write, c.content, pos);
      assert buffer[..0] == [];
      if alignedPageCount > 0 {
        status, result := AccessAlignedPages(write, pageNo, alignedPageCount, buffer[..alignedSize]);
      }
      var overRun := size - alignedSize;
      if overRun > 0 {
        var part;
        ghost var now := c.content;
        status, part := AccessUnalignedCachePage(t, write, overRunPageNo, 0, overRun, buffer[alignedSize..]);
        AccessedInTwo(write, old(c.content), now, c.content, pos, buffer, alignedSize, result, part);
        result := result + part;
      } else {
        assert buffer[..alignedSize] == buffer;
      }
    }

    /** FatAccessCache from the middle of a page on: the under-run, then the rest. */
    method AccessFromMiddle(t: CacheDataType, write: bool, pageNo: nat, underRun: nat, size: nat, buffer: seq<byte>)
      returns (status: Status, result: seq<byte>)
      requires Valid() && |buffer| == size && 0 < underRun < Cache(t).pageSize
      requires PagePos(Cache(t).pageSize, pageNo) + underRun + size <= |Cache(t).region|
      requires PagePos(Cache(t).pageSize, pageNo) < |Cache(t).region|
      requires t == CACHE_FAT && fatCache.pageSize - underRun < size ==>
        PageNumber(fatCache.pageSize, size - (fatCache.pageSize - underRun)) == 0
      modifies this`disk, this`diskError, Cache(t)
      ensures Valid() && status == EFI_SUCCESS && diskError == old(diskError)
      ensures Accessed(write, old(Cache(t).content), Cache(t).content, PagePos(Cache(t).pageSize, pageNo) + underRun, buffer, result)
    {
      hide PageCache.Coherent;
      var c := Cache(t);
      var length := c.pageSize - underRun;
      if length > size {
        length := size;
      }
      ghost var pos := PagePos(c.pageSize, pageNo) + underRun;
      status, result := AccessUnalignedCachePage(t, write, pageNo, underRun, length, buffer[..length]);
      if length < size {
        var part;
        ghost var now := c.content;
        assert pos + length == PagePos(c.pageSize, pageNo + 1);
        status, part := AccessFromPage(t, write, pageNo + 1, size - length, buffer[length..]);
        AccessedInTwo(write, old(c.content), now, c.content, pos, buffer, length, result, part);
        result := result + part;
      } else {
        assert buffer[..length] == buffer;
      }
    }

    /** FatAccessCache: under-run, aligned and over-run parts together act on one flat byte array. */
    method AccessCache(t: CacheDataType, write: bool, offset: nat, size: nat, buffer: seq<byte>) returns (status: Status, result: seq<byte>)
      requires Valid() && |buffer| == size
      requires Cache(t).baseAddress <= offset && offset + size <= Cache(t).limitAddress
      requires t == CACHE_FAT ==> AlignedPageCount(fatCache.pageSize, offset - fatPos, size) == 0
      modifies this`disk, this`diskError, Cache(t)
      ensures Valid() && status == EFI_SUCCESS && diskError == old(diskError)
      ensures Accessed(write, old(Cache(t).content), Cache(t).content, offset - Cache(t).baseAddress, buffer, result)
    {
      hide PageCache.Coherent;
      status, result := EFI_SUCCESS, [];
      var c := Cache(t);
      var entryPos := offset - c.baseAddress;
      var pageNo, underRun := PageNumber(c.pageSize, entryPos), PageOffset(c.pageSize, entryPos);
      SplitPosition(c.pageSize, entryPos);
      if size == 0 {
        AccessedNothing(write, c.content, entryPos);
      } else if underRun > 0 {
        status, result := AccessFromMiddle(t, write, pageNo, underRun, size, buffer);
      } else {
        status, result := AccessFromPage(t, write, pageNo, size, buffer);
      }
    }

    /** FatDiskIo with READ_FAT or WRITE_FAT: range check, then the FAT cache. */
    method FatIo(write: bool, offset: nat, buffer: seq<byte>) returns (status: Status, result: seq<byte>)
      requires Valid() && fatPos <= offset && offset + |buffer| <= fatPos + fatSize
      requires AlignedPageCount(fatCache.pageSize, offset - fatPos, |buffer|) == 0
      modifies this`disk, this`diskError, fatCache
      ensures Valid() && status == EFI_SUCCESS && diskError == old(diskError)
      ensures Accessed(write, old(fatCache.content), fatCache.content, offset - fatPos, buffer, result)
    {
      hide PageCache.Coherent;
      StepPosOrder(fatPos, fatSize, 0, numFats);
      assert offset + |buffer| <= volumeSize;
      status, result := AccessCache(CACHE_FAT, write, offset, |buffer|, buffer);
    }

    /**
     FatDiskIo with READ_DATA or WRITE_DATA: range check, then the data cache. `wild` says that the sum has
     wrapped around in the check, and the driver is about to look for a page far behind the volume.
     */
    method DataIo(write: bool, offset: nat, buffer: seq<byte>) returns (status: Status, result: seq<byte>, wild: bool)
      requires Valid() && rootPos <= offset < UINTN_LIMIT && |buffer| < UINTN_LIMIT
      modifies this`disk, this`diskError, dataCache
      ensures Valid()
      ensures wild <==> UINTN_LIMIT <= offset + |buffer| <= UINTN_LIMIT + volumeSize
      ensures !wild ==> status == if offset + |buffer| <= volumeSize then EFI_SUCCESS else EFI_VOLUME_CORRUPTED
      ensures !wild ==> diskError == (old(diskError) || status != EFI_SUCCESS)
      ensures !wild && status == EFI_SUCCESS ==>
        Accessed(write, old(dataCache.content), dataCache.content, offset - rootPos, buffer, result)
      ensures wild || status != EFI_SUCCESS ==> dataCache.content == old(dataCache.content) && result == buffer
    {
      hide PageCache.Coherent;
      status, result, wild := EFI_VOLUME_CORRUPTED, buffer, false;
      InRangeIff(offset, |buffer|);
      if InRange(offset, |buffer|) {
        if offset + |buffer| > volumeSize {
          wild := true;
          return;
        }
        status, result := AccessCache(CACHE_DATA, write, offset, |buffer|, buffer);
      } else {
        diskError := true;
      }
    }

    /** FatDiskIo with READ_DISK or WRITE_DISK from outside the cache layer; writes stay in the reserved area. */
    method DiskIo(write: bool, offset: nat, buffer: seq<byte>) returns (status: Status, result: seq<byte>)
      requires Valid() && offset < UINTN_LIMIT && |buffer| < UINTN_LIMIT
      requires write ==> offset + |buffer| <= fatPos || offset + |buffer| > volumeSize
      modifies this`disk, this`diskError, this`reserved
      ensures Valid()
      ensures status == if offset + |buffer| <= volumeSize then EFI_SUCCESS
                        else if UINTN_LIMIT <= offset + |buffer| <= UINTN_LIMIT + volumeSize then EFI_INVALID_PARAMETER else EFI_VOLUME_CORRUPTED
      ensures diskError == (old(diskError) || status != EFI_SUCCESS)
      ensures status == EFI_SUCCESS ==> Accessed(write, old(disk), disk, offset, buffer, result)
      ensures status != EFI_SUCCESS ==> disk == old(disk) && result == buffer
    {
      status, result := RawDiskIo(write, offset, |buffer|, buffer);
      if write && status == EFI_SUCCESS {
        StoreReserved(old(disk), offset, buffer);
        reserved := disk[..fatPos];
      }
    }

    /** A raw write to the reserved area reaches neither a FAT copy nor the data region. */
    lemma {:induction false} StoreReserved(d: seq<byte>, offset: nat, data: seq<byte>)
      requires Layout() && |d| == volumeSize && offset + |data| <= fatPos
      ensures fatPos + fatSize <= rootPos
      ensures var d' := Splice(d, offset, data);
              && d'[fatPos..fatPos + fatSize] == d[fatPos..fatPos + fatSize]
              && d'[rootPos..volumeSize] == d[rootPos..volumeSize]
              && (Mirrored(d) ==> Mirrored(d'))
    {
      var d' := Splice(d, offset, data);
      StepPosOrder(fatPos, fatSize, 0, numFats);
      SpliceElsewhere(d, offset, data, fatPos, fatPos + fatSize);
      SpliceElsewhere(d, offset, data, rootPos, volumeSize);
      forall k | 0 <= k < numFats ensures FatCopy(d', k) == FatCopy(d, k) {
        StepPosOrder(fatPos, fatSize, k, numFats);
        SpliceElsewhere(d, offset, data, StepPos(fatPos, fatSize, k), StepPos(fatPos, fatSize, k) + fatSize);
      }
    }

    /** One cache of FatVolumeFlushCache. */
    method FlushCache(t: CacheDataType) returns (status: Status)
      requires Valid()
      modifies this`disk, this`diskError, Cache(t)`cacheTag, Cache(t)`region, Cache(t)`dirty
      ensures Valid() && status == EFI_SUCCESS && diskError == old(diskError)
      ensures !Cache(t).dirty
    {
      hide PageCache.Coherent;
      status := EFI_SUCCESS;
      var c := Cache(t);
      if c.dirty {
        var groupIndex := 0;
        while groupIndex < |c.cacheTag|
          invariant 0 <= groupIndex <= |c.cacheTag|
          invariant Valid() && status == EFI_SUCCESS && diskError == old(diskError) && c.dirty
          invariant forall g :: 0 <= g < groupIndex && c.cacheTag[g].realSize > 0 ==> !c.cacheTag[g].dirty
        {
          if c.cacheTag[groupIndex].realSize > 0 && c.cacheTag[groupIndex].dirty {
            status := StoreCachePage(t, groupIndex);
          }
          groupIndex := groupIndex + 1;
        }
        c.dirty := false;
      }
    }

    /** FatVolumeFlushCache: afterwards the device itself holds both byte arrays, in every FAT copy if they agreed. */
    method VolumeFlushCache() returns (status: Status)
      requires Valid()
      modifies this`disk, this`diskError, fatCache, dataCache
      ensures Valid() && status == EFI_SUCCESS && diskError == old(diskError)
      ensures fatCache.content == old(fatCache.content) && dataCache.content == old(dataCache.content)
      ensures disk[fatPos..fatPos + fatSize] == fatCache.content && disk[rootPos..volumeSize] == dataCache.content
      ensures mirroredAtMount ==> forall k :: 0 <= k < numFats ==> FatCopy(disk, k) == fatCache.content
    {
      status := FlushCache(CACHE_FAT);
      status := FlushCache(CACHE_DATA);
      fatCache.CleanOnDisk();
      dataCache.CleanOnDisk();
      assert FatCopy(disk, 0) == disk[fatPos..fatPos + fatSize];
    }
  }
}
