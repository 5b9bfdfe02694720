/**
 FatOpenDevice in FatPkg/EnhancedFatDxe/Init.c: from the boot sector to the positions and sizes the
 rest of the driver relies on.
 */
module Geometry {
  import opened Bytes
  import opened PageCache
  import opened DiskCache
  import opened FatTable
  import opened FatEntries
  import opened FileSpace
  import opened Wrappers

  const FAT_MAX_FAT12_CLUSTER: nat := 0xFF5
  const FAT_MAX_FAT16_CLUSTER: nat := 0xFFF5
  const MIN_BLOCK_ALIGNMENT: nat := 9
  const MAX_BLOCK_ALIGNMENT: nat := 12
  const MAX_SECTORS_PER_CLUSTER_ALIGNMENT: nat := 7
  const DIR_ENTRY_SIZE: nat := 32

  type UINT8 = n: nat | n < 0x100

  /** The fields of FAT_BOOT_SECTOR that are used. */
  datatype BootSector = BootSector(
    sectorSize: UINT16, sectorsPerCluster: UINT8, reservedSectors: UINT16, numFats: UINT8, rootEntries: UINT16,
    sectors: UINT16, media: UINT8, sectorsPerFat: UINT16, largeSectors: UINT32, largeSectorsPerFat: UINT32,
    mirrorDisabled: bool, fsVersion: UINT16)

  /** The fields of FAT_VOLUME that are computed. */
  datatype Layout = Layout(
    fatType: FatType, fatPos: nat, fatSize: nat, numFats: nat, rootPos: nat, firstClusterPos: nat,
    volumeSize: nat, maxCluster: nat, clusterSize: nat, rootEntries: nat, nextCluster: nat)

  /** HighBitSet32 of a power of two; anything else is refused before. */
  function Alignment(n: nat, max: nat): Option<nat> {
    if Pow2(max) == n then Some(max) else if max == 0 then None else Alignment(n, max - 1)
  }

  lemma {:induction false} AlignmentIsLog(n: nat, max: nat)
    ensures Alignment(n, max).Some? ==> Alignment(n, max).value <= max && Pow2(Alignment(n, max).value) == n
  {
    if Pow2(max) != n && max > 0 { AlignmentIsLog(n, max - 1); }
  }

  lemma {:induction false} Powers()
    ensures Pow2(0) == 1 && Pow2(1) == 2 && Pow2(2) == 4 && Pow2(3) == 8 && Pow2(4) == 16 && Pow2(5) == 32 && Pow2(6) == 64
    ensures Pow2(7) == 128 && Pow2(8) == 256 && Pow2(9) == 512 && Pow2(10) == 1024 && Pow2(11) == 2048 && Pow2(12) == 4096
  {
    assert Pow2(4) == 16;
    assert Pow2(8) == 256;
  }

  /** Of the powers of two in range, each is found at its exponent. */
  lemma {:induction false} AlignmentFinds(k: nat, max: nat)
    requires k <= max <= MAX_BLOCK_ALIGNMENT
    ensures Alignment(Pow2(k), max) == Some(k)
    decreases max
  {
    if k < max {
      PowersAscend(k + 1, max);
      AlignmentFinds(k, max - 1);
    }
  }

  lemma {:induction false} PowersAscend(a: nat, b: nat)
    requires a <= b
    ensures Pow2(a) <= Pow2(b)
    decreases b
  {
    if a < b { PowersAscend(a, b - 1); }
  }

  /** A count of sectors in bytes: the shift by the block alignment. */
  function InBytes(sectors: nat, blockSize: nat): nat {
    sectors * blockSize
  }

  predicate MediaOk(media: nat) {
    !(media <= 0xF7 && media != 0xF0 && media != 0x00 && media != 0x01)
  }

  function Sectors(b: BootSector): UINT32 {
    if b.sectors == 0 then b.largeSectors else b.sectors
  }

  function SectorsPerFat(b: BootSector): UINT32 {
    if b.sectorsPerFat == 0 then b.largeSectorsPerFat else b.sectorsPerFat
  }

  /** A FAT32 volume has no fixed root directory. */
  function RootEntries(b: BootSector): UINT16 {
    if b.sectorsPerFat == 0 then 0 else b.rootEntries
  }

  function RootDirSectors(b: BootSector): nat
    requires b.sectorSize > 0
  {
    (RootEntries(b) * DIR_ENTRY_SIZE + (b.sectorSize - 1)) / b.sectorSize
  }

  function RootLba(b: BootSector): nat {
    b.numFats * SectorsPerFat(b) + b.reservedSectors
  }

  function FirstClusterLba(b: BootSector): nat
    requires b.sectorSize > 0
  {
    RootLba(b) + RootDirSectors(b)
  }

  /** Sectors after the root directory, in UINTN arithmetic. */
  function DataSectors(b: BootSector): nat
    requires b.sectorSize > 0
  {
    (Sectors(b) - FirstClusterLba(b)) % UINTN_LIMIT
  }

  function MaxCluster(b: BootSector): nat
    requires b.sectorSize > 0 && b.sectorsPerCluster > 0
  {
    DataSectors(b) / b.sectorsPerCluster
  }

  /** The checks on the boot sector before anything is computed. */
  predicate Plausible(b: BootSector) {
    && b.reservedSectors != 0 && b.numFats != 0 && Sectors(b) != 0
    && Alignment(b.sectorSize, MAX_BLOCK_ALIGNMENT).Some? && Alignment(b.sectorSize, MAX_BLOCK_ALIGNMENT).value >= MIN_BLOCK_ALIGNMENT
    && Alignment(b.sectorsPerCluster, MAX_SECTORS_PER_CLUSTER_ALIGNMENT).Some? && MediaOk(b.media)
    && (if b.sectorsPerFat != 0 then b.rootEntries != 0 else SectorsPerFat(b) != 0 && b.fsVersion == 0 && !b.mirrorDisabled)
  }

  /** The boot sectors that pass. */
  lemma {:induction false} PlausibleIff(b: BootSector)
    ensures Plausible(b) <==>
      && b.reservedSectors > 0 && b.numFats > 0 && (b.sectors > 0 || b.largeSectors > 0)
      && b.sectorSize in {512, 1024, 2048, 4096} && b.sectorsPerCluster in {1, 2, 4, 8, 16, 32, 64, 128}
      && (b.media in {0x00, 0x01, 0xF0} || b.media >= 0xF8)
      && if b.sectorsPerFat > 0 then b.rootEntries > 0 else b.largeSectorsPerFat > 0 && b.fsVersion == 0 && !b.mirrorDisabled
  {
    hide Alignment, Pow2;
    BlockSizes(b.sectorSize);
    ClusterSizes(b.sectorsPerCluster);
  }

  lemma {:induction false} BlockSizes(n: nat)
    ensures Alignment(n, MAX_BLOCK_ALIGNMENT).Some? && Alignment(n, MAX_BLOCK_ALIGNMENT).value >= MIN_BLOCK_ALIGNMENT <==>
            n in {512, 1024, 2048, 4096}
  {
    hide Alignment, Pow2;
    Powers();
    AlignmentIsLog(n, 12);
    AlignmentFinds(9, 12);
    AlignmentFinds(10, 12);
    AlignmentFinds(11, 12);
    AlignmentFinds(12, 12);
  }

  lemma {:induction false} ClusterSizes(n: nat)
    ensures Alignment(n, MAX_SECTORS_PER_CLUSTER_ALIGNMENT).Some? <==> n in {1, 2, 4, 8, 16, 32, 64, 128}
  {
    hide Alignment, Pow2;
    Powers();
    AlignmentIsLog(n, 7);
    AlignmentFinds(0, 7);
    AlignmentFinds(1, 7);
    AlignmentFinds(2, 7);
    AlignmentFinds(3, 7);
    AlignmentFinds(4, 7);
    AlignmentFinds(5, 7);
    AlignmentFinds(6, 7);
    AlignmentFinds(7, 7);
  }

  /** A volume that FatOpenDevice has accepted. */
  ghost predicate Opened(b: BootSector, v: Layout) {
    && Plausible(b) && b.sectorSize > 0 && b.sectorsPerCluster > 0
    && v.maxCluster == MaxCluster(b) && (b.sectorsPerFat != 0 <==> v.maxCluster < FAT_MAX_FAT16_CLUSTER)
    && LaidOut(b, v) && (FirstClusterLba(b) <= Sectors(b) <==> v.firstClusterPos <= v.volumeSize) && FAT_MIN_CLUSTER <= v.nextCluster
  }

  /** FatOpenDevice: `hint` is the next free cluster of the information sector, 0 if there is none. */
  method OpenDevice(b: BootSector, hint: nat) returns (status: Status, v: Option<Layout>)
    ensures status == EFI_SUCCESS <==> v.Some?
    ensures Plausible(b) ==> b.sectorSize > 0 && b.sectorsPerCluster > 0
    ensures status == if !Plausible(b) then EFI_UNSUPPORTED
                      else if b.sectorsPerFat != 0 <==> MaxCluster(b) < FAT_MAX_FAT16_CLUSTER then EFI_SUCCESS else EFI_VOLUME_CORRUPTED
    ensures status == EFI_SUCCESS ==> Opened(b, v.value)
    ensures status == EFI_SUCCESS ==> v.value.nextCluster == if 2 <= hint <= v.value.maxCluster + 1 then hint else 2
    ensures status == EFI_SUCCESS && v.value.fatType != FAT32 ==>
      v.value.firstClusterPos + PagePos(v.value.clusterSize, v.value.maxCluster) <= v.value.volumeSize
  {
    hide Alignment, MediaOk, LaidOut, DataSectors, FirstClusterLba;
    AlignmentIsLog(b.sectorSize, MAX_BLOCK_ALIGNMENT);
    AlignmentIsLog(b.sectorsPerCluster, MAX_SECTORS_PER_CLUSTER_ALIGNMENT);
    v := None;
    var fatType := FAT12;
    var sectors: UINT32 := b.sectors;
    if sectors == 0 {
      sectors := b.largeSectors;
    }
    var sectorsPerFat: UINT32 := b.sectorsPerFat;
    if sectorsPerFat == 0 {
      sectorsPerFat, fatType := b.largeSectorsPerFat, FAT32;
    }
    if b.reservedSectors == 0 || b.numFats == 0 || sectors == 0 {
      return EFI_UNSUPPORTED, None;
    }
    var blockAlignment := Alignment(b.sectorSize, MAX_BLOCK_ALIGNMENT);
    if blockAlignment.None? || blockAlignment.value < MIN_BLOCK_ALIGNMENT {
      return EFI_UNSUPPORTED, None;
    }
    var clusterAlignment := Alignment(b.sectorsPerCluster, MAX_SECTORS_PER_CLUSTER_ALIGNMENT);
    if clusterAlignment.None? || !MediaOk(b.media) {
      return EFI_UNSUPPORTED, None;
    }
    if fatType != FAT32 {
      if b.rootEntries == 0 {
        return EFI_UNSUPPORTED, None;
      }
    } else if sectorsPerFat == 0 || b.fsVersion != 0 || b.mirrorDisabled {
      return EFI_UNSUPPORTED, None;
    }
    v := FillLayout(b, fatType, hint);
    status := if v.Some? then EFI_SUCCESS else EFI_VOLUME_CORRUPTED;
    if v.Some? && v.value.fatType != FAT32 { SmallVolumeFits(b, v.value); }
  }

  /** The second half of FatOpenDevice; `fatType` only tells FAT32 from the others yet. */
  method FillLayout(b: BootSector, fatType: FatType, hint: nat) returns (v: Option<Layout>)
    requires b.sectorSize > 0 && b.sectorsPerCluster > 0 && b.numFats > 0 && (fatType == FAT32 <==> b.sectorsPerFat == 0)
    ensures v.Some? <==> (fatType != FAT32 <==> MaxCluster(b) < FAT_MAX_FAT16_CLUSTER)
    ensures v.Some? ==> v.value.maxCluster == MaxCluster(b) && LaidOut(b, v.value)
    ensures v.Some? ==> (FirstClusterLba(b) <= Sectors(b) <==> v.value.firstClusterPos <= v.value.volumeSize)
    ensures v.Some? ==> v.value.nextCluster == if 2 <= hint <= v.value.maxCluster + 1 then hint else 2
  {
    hide LaidOut, InBytes, RootDirSectors, RootLba, DataSectors, MaxCluster, Sectors, SectorsPerFat, RootEntries;
    var blockSize := b.sectorSize;
    var rootLba := RootLba(b);
    var firstClusterLba := FirstClusterLba(b);
    var maxCluster := MaxCluster(b);
    var actual := fatType;
    if fatType != FAT32 {
      if maxCluster >= FAT_MAX_FAT16_CLUSTER {
        return None;
      }
      actual := if maxCluster < FAT_MAX_FAT12_CLUSTER then FAT12 else FAT16;
    } else if maxCluster < FAT_MAX_FAT16_CLUSTER {
      return None;
    }
    var nextCluster := hint;
    if FAT_MIN_CLUSTER > nextCluster || nextCluster > maxCluster + 1 {
      nextCluster := FAT_MIN_CLUSTER;
    }
    v := Some(Layout(actual, InBytes(b.reservedSectors, blockSize), InBytes(SectorsPerFat(b), blockSize), b.numFats, InBytes(rootLba, blockSize),
                     InBytes(firstClusterLba, blockSize), InBytes(Sectors(b), blockSize), maxCluster, InBytes(b.sectorsPerCluster, blockSize), RootEntries(b), nextCluster));
    LayoutHolds(b, v.value);
  }

  /**
   What the positions mean: the reserved sectors, the tables, the root directory rounded up to a sector, and
   as many whole clusters as the volume has room for.
   */
  ghost predicate LaidOut(b: BootSector, v: Layout) {
    && v.numFats == b.numFats > 0 && v.rootEntries == (if b.sectorsPerFat > 0 then b.rootEntries else 0)
    && v.clusterSize == b.sectorsPerCluster * b.sectorSize > 0
    && v.fatPos == b.reservedSectors * b.sectorSize
    && v.fatSize == (if b.sectorsPerFat > 0 then b.sectorsPerFat else b.largeSectorsPerFat) * b.sectorSize
    && v.rootPos == StepPos(v.fatPos, v.fatSize, v.numFats)
    && v.rootPos + v.rootEntries * 32 <= v.firstClusterPos < v.rootPos + v.rootEntries * 32 + b.sectorSize
    && v.firstClusterPos % b.sectorSize == 0
    && v.fatType == (if b.sectorsPerFat == 0 then FAT32 else if v.maxCluster < 4085 then FAT12 else FAT16)
    && v.volumeSize == (if b.sectors > 0 then b.sectors else b.largeSectors) * b.sectorSize
    && (v.firstClusterPos <= v.volumeSize ==>
          v.firstClusterPos + PagePos(v.clusterSize, v.maxCluster) <= v.volumeSize < v.firstClusterPos + PagePos(v.clusterSize, v.maxCluster + 1))
  }

  lemma {:induction false} RoundedUp(x: nat, n: nat)
    requires n > 0
    ensures x <= (x + (n - 1)) / n * n < x + n
  {
    var q := (x + (n - 1)) / n;
    assert x + (n - 1) == q * n + (x + (n - 1)) % n;
  }

  lemma {:induction false} ScaledCopies(fats: nat, perFat: nat, reserved: nat, size: nat)
    ensures (fats * perFat + reserved) * size == reserved * size + fats * (perFat * size)
  {
    assert (fats * perFat + reserved) * size == fats * perFat * size + reserved * size;
    assert fats * perFat * size == fats * (perFat * size);
  }

  lemma {:induction false} WholeClusters(data: nat, perCluster: nat, size: nat)
    requires perCluster > 0 && size > 0
    ensures var n := data / perCluster; n * (perCluster * size) <= data * size < (n + 1) * (perCluster * size)
  {
    var n := data / perCluster;
    assert data == n * perCluster + data % perCluster;
    assert (n + 1) * perCluster == n * perCluster + perCluster;
    MulOrder(n * perCluster, data, size);
    MulOrder(data + 1, (n + 1) * perCluster, size);
    assert (data + 1) * size == data * size + size;
    assert n * perCluster * size == n * (perCluster * size);
    assert (n + 1) * perCluster * size == (n + 1) * (perCluster * size);
  }

  lemma {:induction false} LayoutHolds(b: BootSector, v: Layout)
    requires b.sectorSize > 0 && b.sectorsPerCluster > 0 && b.numFats > 0
    requires v.numFats == b.numFats && v.rootEntries == RootEntries(b) && v.clusterSize == InBytes(b.sectorsPerCluster, b.sectorSize)
    requires v.fatPos == InBytes(b.reservedSectors, b.sectorSize) && v.fatSize == InBytes(SectorsPerFat(b), b.sectorSize)
    requires v.rootPos == InBytes(RootLba(b), b.sectorSize) && v.firstClusterPos == InBytes(FirstClusterLba(b), b.sectorSize)
    requires v.volumeSize == InBytes(Sectors(b), b.sectorSize) && v.maxCluster == MaxCluster(b)
    requires v.fatType == FAT12 <==> b.sectorsPerFat != 0 && v.maxCluster < FAT_MAX_FAT12_CLUSTER
    requires v.fatType == FAT32 <==> b.sectorsPerFat == 0
    ensures LaidOut(b, v) && (FirstClusterLba(b) <= Sectors(b) <==> v.firstClusterPos <= v.volumeSize)
  {
    hide RootLba, FirstClusterLba, DataSectors, RootDirSectors, PagePos;
    RootIsBehindTables(b, v);
    RootDirFits(b, v);
    MulOrder(1, b.sectorsPerCluster, b.sectorSize);
    BehindSectors(FirstClusterLba(b), Sectors(b), b.sectorSize);
    if FirstClusterLba(b) <= Sectors(b) { ClustersFit(b, v); }
  }

  lemma {:induction false} BehindSectors(k: nat, m: nat, size: nat)
    requires size > 0
    ensures k <= m <==> k * size <= m * size
  {
    if k <= m {
      MulOrder(k, m, size);
    } else {
      MulOrder(m + 1, k, size);
      assert (m + 1) * size == m * size + size;
    }
  }

  lemma {:induction false} RootIsBehindTables(b: BootSector, v: Layout)
    requires v.numFats == b.numFats && v.fatPos == b.reservedSectors * b.sectorSize && v.fatSize == SectorsPerFat(b) * b.sectorSize
    requires v.rootPos == RootLba(b) * b.sectorSize
    ensures v.rootPos == StepPos(v.fatPos, v.fatSize, v.numFats)
  {
    ScaledCopies(b.numFats, SectorsPerFat(b), b.reservedSectors, b.sectorSize);
    StepPosIsProduct(v.fatPos, v.fatSize, v.numFats);
  }

  lemma {:induction false} RootDirFits(b: BootSector, v: Layout)
    requires b.sectorSize > 0 && v.rootEntries == RootEntries(b)
    requires v.rootPos == RootLba(b) * b.sectorSize && v.firstClusterPos == FirstClusterLba(b) * b.sectorSize
    ensures v.rootPos + v.rootEntries * DIR_ENTRY_SIZE <= v.firstClusterPos < v.rootPos + v.rootEntries * DIR_ENTRY_SIZE + b.sectorSize
    ensures v.firstClusterPos % b.sectorSize == 0
  {
    QuotientIsUnique(b.sectorSize, FirstClusterLba(b), 0);
    RoundedUp(v.rootEntries * DIR_ENTRY_SIZE, b.sectorSize);
    assert FirstClusterLba(b) * b.sectorSize == RootLba(b) * b.sectorSize + RootDirSectors(b) * b.sectorSize;
  }

  lemma {:induction false} ClustersFit(b: BootSector, v: Layout)
    requires b.sectorSize > 0 && b.sectorsPerCluster > 0 && FirstClusterLba(b) <= Sectors(b)
    requires v.clusterSize == b.sectorsPerCluster * b.sectorSize && v.firstClusterPos == FirstClusterLba(b) * b.sectorSize
    requires v.volumeSize == Sectors(b) * b.sectorSize && v.maxCluster == MaxCluster(b)
    ensures v.firstClusterPos + PagePos(v.clusterSize, v.maxCluster) <= v.volumeSize < v.firstClusterPos + PagePos(v.clusterSize, v.maxCluster + 1)
  {
    var size, first := b.sectorSize, FirstClusterLba(b);
    var sectors: nat := Sectors(b);
    assert DataSectors(b) == sectors - first;
    var data: nat := sectors - first;
    hide FirstClusterLba, Sectors, DataSectors;
    assert data * size == sectors * size - first * size;
    WholeClusters(data, b.sectorsPerCluster, size);
    PagePosIsProduct(v.clusterSize, v.maxCluster);
    PagePosIsProduct(v.clusterSize, v.maxCluster + 1);
  }

  // ----- the sizes FatOpenDevice does not compare

  /**
   When the tables and the root directory are larger than the volume, the sector count wraps around to more
   clusters than any table has entries for.
   */
  lemma {:induction false} WrappedCount(b: BootSector)
    requires Plausible(b) && b.sectorSize > 0 && b.sectorsPerCluster > 0 && FirstClusterLba(b) > Sectors(b)
    ensures MaxCluster(b) >= 0x80_0000_0000_0000 && FirstClusterLba(b) < 0x200_0000_0000
  {
    hide Alignment, Sectors, SectorsPerFat, RootEntries, MediaOk;
    assert b.numFats * SectorsPerFat(b) <= 0x100 * 0x1_0000_0000 by { Products(b.numFats, SectorsPerFat(b), 0x100, 0x1_0000_0000); }
    Quotient(RootEntries(b) * DIR_ENTRY_SIZE + (b.sectorSize - 1), b.sectorSize);
    var data := DataSectors(b);
    assert data == UINTN_LIMIT + Sectors(b) - FirstClusterLba(b);
    QuotientAtLeast(data, b.sectorsPerCluster, 0x100, 0x80_0000_0000_0000);
  }

  lemma {:induction false} Products(a: nat, b: nat, a': nat, b': nat)
    requires a <= a' && b <= b'
    ensures a * b <= a' * b'
  {
    MulOrder(a, a', b);
    MulOrder(b, b', a');
  }

  lemma {:induction false} Quotient(x: nat, n: nat)
    requires n > 0
    ensures x / n <= x
  {
    MulOrder(1, n, x / n);
    assert x == x / n * n + x % n;
  }

  lemma {:induction false} QuotientAtLeast(x: nat, n: nat, limit: nat, q: nat)
    requires 0 < n <= limit && limit * q <= x
    ensures x / n >= q
  {
    var k := x / n;
    MulOrder(n, limit, q);
    assert x == k * n + x % n && (k + 1) * n == k * n + n;
    if k < q { MulOrder(k + 1, q, n); }
  }

  /** Below FAT32 an accepted volume has room for its root directory and its clusters. */
  lemma {:induction false} SmallVolumeFits(b: BootSector, v: Layout)
    requires Opened(b, v) && v.fatType != FAT32
    ensures FirstClusterLba(b) <= Sectors(b)
    ensures v.firstClusterPos + PagePos(v.clusterSize, v.maxCluster) <= v.volumeSize && v.maxCluster + 1 < Special(v.fatType)
  {
    hide FirstClusterLba, Sectors, Alignment, PagePos, StepPos, Pow2;
    if FirstClusterLba(b) > Sectors(b) { WrappedCount(b); }
  }

  /**
   What FatOpenDevice does not check: that the table has an entry for every cluster, and that a FAT32 volume
   has no more clusters than entries can name.
   */
  predicate WellSized(v: Layout) {
    && EntryPos(v.fatType, v.maxCluster + 1) + EntrySize(v.fatType) <= v.fatSize
    && v.maxCluster + 1 < Special(v.fatType)
  }

  /** The entry of cluster `c` is in the first table, and its number can be told from the special values. */
  predicate Addressed(v: Layout, c: nat) {
    EntryPos(v.fatType, c) + EntrySize(v.fatType) <= v.fatSize && Extended(v.fatType, c) == c
  }

  lemma {:induction false} EntriesAscend(t: FatType, c: nat, d: nat)
    requires c <= d
    ensures EntryPos(t, c) <= EntryPos(t, d)
  {
  }

  /** WellSized is exactly what the clusters of the volume need. */
  lemma {:induction false} WellSizedIff(v: Layout)
    requires v.maxCluster >= 1
    ensures WellSized(v) <==> forall c: nat :: FAT_MIN_CLUSTER <= c <= v.maxCluster + 1 ==> Addressed(v, c)
  {
    if WellSized(v) {
      forall c: nat | FAT_MIN_CLUSTER <= c <= v.maxCluster + 1 ensures Addressed(v, c) {
        EntriesAscend(v.fatType, c, v.maxCluster + 1);
      }
    } else {
      var c := if v.maxCluster + 1 < Special(v.fatType) then v.maxCluster + 1 else Special(v.fatType);
      assert FAT_MIN_CLUSTER <= c <= v.maxCluster + 1 && !Addressed(v, c);
    }
  }

  /** An accepted and well-sized volume of any type has room for its root directory and its clusters. */
  lemma {:induction false} WellSizedFits(b: BootSector, v: Layout)
    requires Opened(b, v) && WellSized(v)
    ensures v.firstClusterPos + PagePos(v.clusterSize, v.maxCluster) <= v.volumeSize
  {
    hide FirstClusterLba, Sectors, Alignment, EntryPos, PagePos, StepPos, Pow2;
    if FirstClusterLba(b) > Sectors(b) { WrappedCount(b); }
  }

  /** A FAT12 boot sector the driver accepts although its table holds far too few entries. */
  lemma {:induction false} ShortTableExample()
    ensures var b := BootSector(512, 1, 1, 1, 16, 3000, 0xF8, 1, 0, 0, false, 0);
            && Plausible(b) && MaxCluster(b) == 2997 && b.sectorsPerFat != 0
            && EntryPos(FAT12, 2997 + 1) + EntrySize(FAT12) > SectorsPerFat(b) * b.sectorSize
  {
    hide Alignment, Plausible, Pow2;
    PlausibleIff(BootSector(512, 1, 1, 1, 16, 3000, 0xF8, 1, 0, 0, false, 0));
  }

  /** A FAT32 boot sector the driver accepts although the tables alone are larger than the volume. */
  lemma {:induction false} TablesPastEndExample()
    ensures var b := BootSector(512, 1, 32, 2, 0, 100, 0xF8, 0, 0, 1000, false, 0);
            Plausible(b) && FirstClusterLba(b) == 2032 > Sectors(b) == 100 && MaxCluster(b) == UINTN_LIMIT - 1932 >= FAT_MAX_FAT16_CLUSTER
  {
    hide Alignment, Plausible, Pow2;
    PlausibleIff(BootSector(512, 1, 32, 2, 0, 100, 0xF8, 0, 0, 1000, false, 0));
  }

  /** A FAT32 boot sector the driver accepts although its last clusters have the numbers of special values. */
  lemma {:induction false} TooManyClustersExample()
    ensures var b := BootSector(512, 1, 32, 1, 0, 0, 0xF8, 0, 0x1100_0000, 0x22_0000, false, 0);
            && Plausible(b) && FirstClusterLba(b) <= Sectors(b) && MaxCluster(b) == 0x10DD_FFE0 >= FAT_MAX_FAT16_CLUSTER
            && EntryPos(FAT32, MaxCluster(b) + 1) + EntrySize(FAT32) <= SectorsPerFat(b) * b.sectorSize
            && MaxCluster(b) + 1 >= Special(FAT32)
  {
    hide Alignment, Plausible, Pow2;
    PlausibleIff(BootSector(512, 1, 32, 1, 0, 0, 0xF8, 0, 0x1100_0000, 0x22_0000, false, 0));
  }

  // ----- mounting

  /** FatInitializeDiskCache: page sizes and group counts by FAT type. */
  function FatPageSize(t: FatType): (r: nat)
    ensures r > EntrySize(t)
  {
    if t == FAT12 then 0x2000 else 0x8000
  }

  function DataPageSize(t: FatType): (r: nat)
    ensures r > 0
  {
    if t == FAT12 then 0x2000 else 0x1_0000
  }

  /** What the caches, the table and the cluster space need of a volume is what FatOpenDevice gives, if it is well sized. */
  lemma {:induction false} ReadyToMount(b: BootSector, v: Layout)
    requires Opened(b, v) && WellSized(v)
    ensures v.firstClusterPos + PagePos(v.clusterSize, v.maxCluster) <= v.volumeSize <= VOLUME_LIMIT
    ensures v.rootPos <= v.firstClusterPos <= v.volumeSize && v.fatPos + v.fatSize <= v.rootPos && 2 * EntrySize(v.fatType) <= v.fatSize
    ensures v.rootPos == StepPos(v.fatPos, v.fatSize, v.numFats) && v.numFats > 0 && v.clusterSize > 0 && FAT_MIN_CLUSTER <= v.nextCluster
  {
    hide Pow2, PagePos, EntryPos;
    WellSizedFits(b, v);
    Products(Sectors(b), b.sectorSize, UINT32_LIMIT, UINT16_LIMIT);
    StepPosOrder(v.fatPos, v.fatSize, 0, v.numFats);
    PlausibleIff(b);
    MulOrder(1, SectorsPerFat(b), b.sectorSize);
  }

  /**
   FatOpenDevice and FatInitializeDiskCache together: an accepted boot sector with a well-sized layout is all
   the caches, the table and the cluster space need. `valid` and `count` are those of the information sector.
   */
  method Mount(ghost b: BootSector, v: Layout, image: seq<byte>, dirtyValue: seq<byte>, valid: bool, count: nat, ghost agree: bool) returns (volume: FatVolume)
    requires Opened(b, v) && WellSized(v)
    requires |image| == v.volumeSize && |dirtyValue| == EntrySize(v.fatType) && count < UINT32_LIMIT
    requires agree ==> forall k :: 0 <= k < v.numFats ==>
      StepPos(v.fatPos, v.fatSize, k) + v.fatSize <= |image| && v.fatPos + v.fatSize <= |image|
      && image[StepPos(v.fatPos, v.fatSize, k)..StepPos(v.fatPos, v.fatSize, k) + v.fatSize] == image[v.fatPos..v.fatPos + v.fatSize]
    ensures volume.Valid() && volume.fat.io.disk == image && volume.fat.io.mirroredAtMount == agree
    ensures volume.freeInfoValid == valid && volume.clusterCount == count
    ensures volume.clusterSize == v.clusterSize && volume.firstClusterPos == v.firstClusterPos && volume.fat.maxCluster == v.maxCluster
    ensures volume.fat.fatType == v.fatType && volume.nextCluster == v.nextCluster
    ensures var fat, data := volume.fat.io.fatCache, volume.fat.io.dataCache;
            if v.fatType == FAT12 then fat.pageSize == data.pageSize == 8192 && |fat.cacheTag| == 1 && |data.cacheTag| == 64
            else fat.pageSize == 32768 && data.pageSize == 65536 && |fat.cacheTag| == 16 && |data.cacheTag| == 64
  {
    ReadyToMount(b, v);
    hide Plausible, EntryPos, Opened, LaidOut, PagePos, StepPos;
    var fatGroups := if v.fatType == FAT12 then 1 else 16;
    var io := new Volume(v.fatPos, v.fatSize, v.numFats, v.rootPos, image, FatPageSize(v.fatType), fatGroups, DataPageSize(v.fatType), 64, agree);
    var fat := new EntryTable(io, v.fatType, v.maxCluster, dirtyValue);
    volume := new FatVolume(fat, v.clusterSize, v.firstClusterPos, v.nextCluster, valid, count);
  }
}
