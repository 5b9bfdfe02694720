/**
 One entry of the file allocation table at a time, through the FAT cache (FatLoadFatEntry,
 FatGetFatEntry and the storing half of FatSetFatEntry in FatPkg/EnhancedFatDxe/FileSpace.c).
 */
module FatEntries {
  import opened Bytes
  import opened PageCache
  import opened DiskCache
  import opened FatTable

  /** The part of FAT_VOLUME behind the single-entry operations; `io` is the part behind FatDiskIo. */
  class EntryTable {
    const io: Volume
    const fatType: FatType
    const maxCluster: nat
    const dirtyValue: seq<byte>
    var fatEntryPos: nat
    var fatEntryBuffer: seq<byte>
    var fatDirty: bool
    ghost var table: seq<nat>       // the decoded entries, of which those from 2 on are meaningful

    ghost function Footprint(): set<object> {
      {this} + io.Footprint()
    }

    /** What FatOpenDevice guarantees about the geometry of the table. */
    ghost predicate Geometry() {
      && |dirtyValue| == EntrySize(fatType)
      && maxCluster + 1 < Special(fatType)
      && EntryPos(fatType, maxCluster + 1) + EntrySize(fatType) <= io.fatSize
      && 2 * EntrySize(fatType) <= io.fatSize
      && EntrySize(fatType) < io.fatCache.pageSize
    }

    ghost predicate Decodes(content: seq<byte>, t: seq<nat>)
      requires Geometry() && |content| == io.fatSize
    {
      && |t| == maxCluster + 2
      && forall c :: FAT_MIN_CLUSTER <= c <= maxCluster + 1 ==>
           EntryPos(fatType, c) + EntrySize(fatType) <= |content| && t[c] == Entry(fatType, content, c)
    }

    ghost predicate Valid()
      reads Footprint()
    {
      && this !in io.Footprint() && io.Valid() && !io.diskError && Geometry()
      && Decodes(io.fatCache.content, table)
      && |fatEntryBuffer| == EntrySize(fatType)
    }

    /** Every entry is a UINTN. */
    lemma {:induction false} EntriesFit()
      requires Valid()
      ensures forall c :: FAT_MIN_CLUSTER <= c < |table| ==> table[c] < UINTN_LIMIT
    {
      ghost var content := io.fatCache.content;
      forall c | FAT_MIN_CLUSTER <= c < |table| ensures table[c] < UINTN_LIMIT {
        assert table[c] == Entry(fatType, content, c);
      }
    }

    /** Entry `index` as it is on the disk, where the table is one little-endian number. */
    ghost function DiskEntry(index: nat): nat
      reads Footprint()
      requires Valid()
    {
      Pow2Small();
      SignExtended(Digit(LittleEndian(io.fatCache.content), Width(fatType), index) % Pow2(ValueBits(fatType)), ValueBits(fatType))
    }

    /** The table of the model is that number, digit by digit. */
    lemma {:induction false} TableIsNumber(index: nat)
      requires Valid() && FAT_MIN_CLUSTER <= index <= maxCluster + 1
      ensures table[index] == DiskEntry(index)
    {
      hide Entry, SignExtended, Digit, LittleEndian, Pow2;
      EntryInTable(index);
      EntryFits(fatType, index, |io.fatCache.content|);
      EntryIsDigit(fatType, io.fatCache.content, index);
    }

    constructor (volume: Volume, t: FatType, clusters: nat, dirtyMark: seq<byte>)
      requires volume.Valid() && !volume.diskError && |dirtyMark| == EntrySize(t)
      requires clusters + 1 < Special(t) && EntrySize(t) < volume.fatCache.pageSize
      requires EntryPos(t, clusters + 1) + EntrySize(t) <= volume.fatSize && 2 * EntrySize(t) <= volume.fatSize
      ensures Valid() && io == volume && fatType == t && maxCluster == clusters && dirtyValue == dirtyMark
    {
      io, fatType, maxCluster, dirtyValue := volume, t, clusters, dirtyMark;
      fatEntryPos, fatEntryBuffer, fatDirty := 0, seq(EntrySize(t), _ => 0), false;
      ghost var content := volume.fatCache.content;
      table := seq(clusters + 2, i requires 0 <= i < clusters + 2 =>
        if EntryPos(t, i) + EntrySize(t) <= |content| then Entry(t, content, i) else 0);
      new;
      forall c | FAT_MIN_CLUSTER <= c <= maxCluster + 1
        ensures EntryPos(fatType, c) + EntrySize(fatType) <= io.fatSize
      {
        EntryInTable(c);
      }
    }

    lemma {:induction false} EntryInTable(index: nat)
      requires Geometry() && index <= maxCluster + 1
      ensures EntryPos(fatType, index) + EntrySize(fatType) <= io.fatSize
    {
      assert EntryPos(fatType, index) <= EntryPos(fatType, maxCluster + 1);
    }

    /** FatLoadFatEntry for an entry of the table. */
    method LoadFatEntry(index: nat)
      requires Valid() && index <= maxCluster + 1
      modifies this`fatEntryPos, this`fatEntryBuffer, io`disk, io`diskError, io.fatCache
      ensures Valid() && table == old(table) && io.fatCache.content == old(io.fatCache.content)
      ensures fatEntryPos == io.fatPos + EntryPos(fatType, index)
      ensures EntryPos(fatType, index) + EntrySize(fatType) <= io.fatSize
      ensures fatEntryBuffer == EntryBytes(fatType, io.fatCache.content, index)
    {
      EntryInTable(index);
      fatEntryPos := io.fatPos + EntryPos(fatType, index);
      var status;
      status, fatEntryBuffer := io.FatIo(false, fatEntryPos, fatEntryBuffer);
    }

    /** FatGetFatEntry. */
    method GetFatEntry(index: nat) returns (accum: nat)
      requires Valid()
      modifies this`fatEntryPos, this`fatEntryBuffer, io`disk, io`diskError, io.fatCache
      ensures Valid() && table == old(table)
      ensures index > maxCluster + 1 ==> accum == FAT_CLUSTER_LAST
      ensures FAT_MIN_CLUSTER <= index <= maxCluster + 1 ==> accum == table[index] == DiskEntry(index)
    {
      if index > maxCluster + 1 {
        fatEntryBuffer := seq(EntrySize(fatType), _ => 255);
        return FAT_CLUSTER_LAST;
      }
      LoadFatEntry(index);
      accum := Decode(fatType, fatEntryBuffer, index);
      if index >= FAT_MIN_CLUSTER { TableIsNumber(index); }
    }

    /** FatDiskIo on the data region does not reach the table. */
    method DataIo(write: bool, offset: nat, buffer: seq<byte>) returns (status: Status, result: seq<byte>)
      requires Valid() && io.rootPos <= offset && offset + |buffer| <= io.volumeSize
      modifies io`disk, io`diskError, io.dataCache
      ensures Valid() && status == EFI_SUCCESS
      ensures Accessed(write, old(io.dataCache.content), io.dataCache.content, offset - io.rootPos, buffer, result)
    {
      var wild;
      status, result, wild := io.DataIo(write, offset, buffer);
    }

    lemma {:induction false} DecodesAfterSet(content: seq<byte>, index: nat, value: nat)
      requires Geometry() && |content| == io.fatSize && |table| == maxCluster + 2 && Decodes(content, table)
      requires FAT_MIN_CLUSTER <= index <= maxCluster + 1 && Storable(fatType, value)
      ensures EntryPos(fatType, index) + EntrySize(fatType) <= |content|
      ensures Decodes(Splice(content, EntryPos(fatType, index), Encode(fatType, EntryBytes(fatType, content, index), index, value)),
                      table[index := value])
    {
      StoredIsValue(fatType, value);
      forall c | FAT_MIN_CLUSTER <= c <= maxCluster + 1
        ensures EntryPos(fatType, c) + EntrySize(fatType) <= |content|
        ensures table[index := value][c] == Entry(fatType,
          Splice(content, EntryPos(fatType, index), Encode(fatType, EntryBytes(fatType, content, index), index, value)), c)
      {
        SetEntry(fatType, content, index, value, c);
      }
    }

    /** Entry 1 holds the dirty mark if it was due, and nothing else changed. */
    ghost predicate MarkWritten(due: bool, before: seq<byte>, after: seq<byte>) {
      EntrySize(fatType) + |dirtyValue| <= |before| && after == if due then Splice(before, EntrySize(fatType), dirtyValue) else before
    }

    /** The first FAT update of a session marks the volume dirty in entry 1. */
    method MarkDirty()
      requires Valid()
      modifies this`fatDirty, io`disk, io`diskError, io.fatCache
      ensures Valid() && table == old(table) && fatDirty == (old(fatDirty) || fatType != FAT12)
      ensures MarkWritten(!old(fatDirty) && fatType != FAT12, old(io.fatCache.content), io.fatCache.content)
      ensures forall c :: FAT_MIN_CLUSTER <= c <= maxCluster + 1 ==>
        EntryPos(fatType, c) + EntrySize(fatType) <= io.fatSize && |io.fatCache.content| == |old(io.fatCache.content)| == io.fatSize
        && EntryBytes(fatType, io.fatCache.content, c) == EntryBytes(fatType, old(io.fatCache.content), c)
    {
      if !fatDirty && fatType != FAT12 {
        fatDirty := true;
        ghost var content := io.fatCache.content;
        var status, written := io.FatIo(true, io.fatPos + EntrySize(fatType), dirtyValue);
        forall c | FAT_MIN_CLUSTER <= c <= maxCluster + 1
          ensures EntryPos(fatType, c) + EntrySize(fatType) <= io.fatSize
          ensures Entry(fatType, io.fatCache.content, c) == Entry(fatType, content, c)
          ensures EntryBytes(fatType, io.fatCache.content, c) == EntryBytes(fatType, content, c)
        {
          DirtyMarkKeepsEntries(fatType, content, dirtyValue, c);
        }
      }
    }

    /** The last step of FatSetFatEntry: the edited buffer goes through the FAT cache. */
    method WriteFatEntry(index: nat, value: nat) returns (status: Status)
      requires Valid() && FAT_MIN_CLUSTER <= index <= maxCluster + 1 && Storable(fatType, value)
      requires fatEntryPos == io.fatPos + EntryPos(fatType, index) && EntryPos(fatType, index) + EntrySize(fatType) <= io.fatSize
      requires fatEntryBuffer == Encode(fatType, EntryBytes(fatType, io.fatCache.content, index), index, value)
      modifies this`table, io`disk, io`diskError, io.fatCache
      ensures Valid() && status == EFI_SUCCESS && table == old(table)[index := value] && DiskEntry(index) == value
    {
      hide Encode, Decode, Entry, EntryBytes, Coherent, Volume.OnDevice, Volume.Mirrored;
      DecodesAfterSet(io.fatCache.content, index, value);
      var written;
      status, written := io.FatIo(true, fatEntryPos, fatEntryBuffer);
      table := table[index := value];
      TableIsNumber(index);
    }

    /** The second half of FatSetFatEntry: load, edit, mark the volume, write through the FAT cache. */
    method StoreFatEntry(index: nat, value: nat) returns (status: Status)
      requires Valid() && FAT_MIN_CLUSTER <= index <= maxCluster + 1 && Storable(fatType, value)
      modifies this`fatEntryPos, this`fatEntryBuffer, this`fatDirty, this`table, io`disk, io`diskError, io.fatCache
      ensures Valid() && status == EFI_SUCCESS && table == old(table)[index := value] && DiskEntry(index) == value
      ensures fatDirty == (old(fatDirty) || fatType != FAT12)
    {
      hide DiskEntry, MarkWritten, Decodes, Encode, Volume.Valid;
      LoadFatEntry(index);
      ghost var before := fatEntryBuffer;
      fatEntryBuffer := Encode(fatType, fatEntryBuffer, index, value);
      MarkDirty();
      assert EntryBytes(fatType, io.fatCache.content, index) == before;
      status := WriteFatEntry(index, value);
    }
  }
}
