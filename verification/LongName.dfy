/**
 The 32-byte slots of a FAT directory and the long names in them: FatCheckSum in
 FatPkg/EnhancedFatDxe/FileName.c, the slot layout of FatStoreDirEnt and the reading back of
 FatLoadLongNameEntry in FatPkg/EnhancedFatDxe/DirectoryManage.c.
 */
module LongName {
  import opened Bytes

  const FAT_ATTRIBUTE_VOLUME_ID: byte := 0x08
  const FAT_ATTRIBUTE_LFN: byte := 0x0F
  const FAT_LFN_LAST: byte := 0x40
  const DELETE_ENTRY_MARK: byte := 0xE5
  const EMPTY_ENTRY_MARK: byte := 0x00
  const MAX_LFN_ENTRIES: nat := 20
  const LFN_CHAR_TOTAL: nat := 13
  const FAT_NAME_LEN: nat := 11

  type Char16 = c: int | 0 <= c < 0x1_0000
  type FatName = s: seq<byte> | |s| == FAT_NAME_LEN witness seq(FAT_NAME_LEN, _ => 32)
  type LfnChars = s: seq<Char16> | |s| == LFN_CHAR_TOTAL witness seq(LFN_CHAR_TOTAL, _ => 0)

  /** FAT_DIRECTORY_ENTRY; `info` stands for the times, the first cluster and the size. */
  datatype RawEntry = RawEntry(fileName: FatName, attributes: byte, caseFlag: byte, info: seq<byte>)

  /** The attribute value 0x0F is what makes a slot a long-name slot. */
  type DirEntry = e: RawEntry | e.attributes != FAT_ATTRIBUTE_LFN
    witness RawEntry(seq(FAT_NAME_LEN, _ => 0), 0, 0, [])

  /** One slot of the directory file: the overlay of FAT_DIRECTORY_LFN and FAT_DIRECTORY_ENTRY. */
  datatype Slot =
    | Lfn(ordinal: byte, chars: LfnChars, kind: byte, checksum: byte, mustBeZero: nat)
    | Short(entry: DirEntry)

  /** FAT_DIRENT. */
  datatype DirEnt = DirEnt(entryPos: nat, entryCount: nat, fileString: seq<Char16>, entry: DirEntry)

  // ----- FatCheckSum

  /** One round: rotate right by one, add the character, truncate to a byte. */
  function Rotated(sum: byte): byte {
    (if sum % 2 == 1 then 0x80 else 0) + sum / 2
  }

  function SumFrom(name: seq<byte>, sum: byte): byte {
    if name == [] then sum else SumFrom(name[1..], (Rotated(sum) + name[0]) % 256)
  }

  method CheckSum(shortName: FatName) returns (sum: byte)
    ensures sum == SumFrom(shortName, 0)
  {
    sum := 0;
    var i := 0;
    assert shortName[0..] == shortName;
    while i < FAT_NAME_LEN
      invariant 0 <= i <= FAT_NAME_LEN && SumFrom(shortName[i..], sum) == SumFrom(shortName, 0)
    {
      assert shortName[i..][1..] == shortName[i + 1..];
      sum := (Rotated(sum) + shortName[i]) % 256;
      i := i + 1;
    }
    assert shortName[i..] == [];
  }

  /** The rotation halves a byte modulo 255, and leaves it a byte. */
  lemma {:induction false} RotatedHalves(sum: byte)
    ensures (2 * (Rotated(sum) as int) - sum) % 255 == 0 && ((Rotated(sum) as int) < 0x80 <==> sum % 2 == 0)
  {
  }

  lemma {:induction false} RoundIsInjective(a: byte, b: byte, c: byte)
    requires (Rotated(a) + c) % 256 == (Rotated(b) + c) % 256
    ensures a == b
  {
    assert Rotated(a) == Rotated(b);
  }

  lemma {:induction false} AddIsInjective(r: byte, b: byte, c: byte)
    requires (r + b) % 256 == (r + c) % 256
    ensures b == c
  {
  }

  lemma {:induction false} SumIsInjective(name: seq<byte>, a: byte, b: byte)
    requires SumFrom(name, a) == SumFrom(name, b)
    ensures a == b
    decreases |name|
  {
    if name != [] {
      SumIsInjective(name[1..], (Rotated(a) + name[0]) % 256, (Rotated(b) + name[0]) % 256);
      RoundIsInjective(a, b, name[0]);
    }
  }

  /** Changing one character of a short name always changes its checksum. */
  lemma {:induction false} SumDetectsChange(name: seq<byte>, sum: byte, i: nat, b: byte)
    requires i < |name| && b != name[i]
    ensures SumFrom(name[i := b], sum) != SumFrom(name, sum)
    decreases |name|
  {
    hide Rotated;
    var name' := name[i := b];
    if i == 0 {
      assert name'[1..] == name[1..];
      if SumFrom(name', sum) == SumFrom(name, sum) {
        SumIsInjective(name[1..], (Rotated(sum) + b) % 256, (Rotated(sum) + name[0]) % 256);
        AddIsInjective(Rotated(sum), b, name[0]);
      }
    } else {
      assert name'[1..] == name[1..][i - 1 := b];
      SumDetectsChange(name[1..], (Rotated(sum) + name[0]) % 256, i - 1, b);
    }
  }

  // ----- kinds of slots

  function FirstByte(s: Slot): byte {
    if s.Lfn? then s.ordinal else s.entry.fileName[0]
  }

  /** `Attributes & FAT_ATTRIBUTE_VOLUME_ID`. */
  predicate HasVolumeBit(attributes: byte) {
    (attributes / FAT_ATTRIBUTE_VOLUME_ID) % 2 == 1
  }

  predicate IsVolumeId(s: Slot) {
    s.Lfn? || HasVolumeBit(s.entry.attributes)
  }

  /** A file or directory; what FatLoadNextDirEnt turns into a FAT_DIRENT. */
  predicate Live(s: Slot) {
    s.Short? && FirstByte(s) != DELETE_ENTRY_MARK && FirstByte(s) != EMPTY_ENTRY_MARK && !IsVolumeId(s)
  }

  /** The mark at which FatLoadNextDirEnt stops for good. */
  predicate IsEnd(s: Slot) {
    FirstByte(s) == EMPTY_ENTRY_MARK && !IsVolumeId(s)
  }

  /** The kinds by attribute bit 3 and the first byte: 0xE5 is a deleted slot, 0x00 the end. */
  lemma {:induction false} KindsOnDisk(s: Slot)
    ensures Live(s) <==> s.Short? && s.entry.attributes % 16 < 8 && s.entry.fileName[0] != 0xE5 && s.entry.fileName[0] != 0
    ensures IsEnd(s) <==> s.Short? && s.entry.attributes % 16 < 8 && s.entry.fileName[0] == 0
  {
    var a: nat := if s.Short? then s.entry.attributes else 0;
    assert a / 8 % 2 == 1 <==> a % 16 >= 8;
  }

  // ----- reading a long name

  /** `Ordinal & ~FAT_LFN_LAST`. */
  function OrdinalOf(b: byte): byte {
    if (b / FAT_LFN_LAST) % 2 == 1 then b - FAT_LFN_LAST else b
  }

  predicate IsLast(b: byte) {
    (b / FAT_LFN_LAST) % 2 == 1
  }

  /** The slot is piece `ord` of a long name for a short name with checksum `sum`. */
  predicate Continues(s: Slot, sum: byte, ord: nat) {
    s.Lfn? && s.mustBeZero == 0 && s.checksum == sum && OrdinalOf(s.ordinal) == ord && ord <= MAX_LFN_ENTRIES
  }

  /** The loop of FatLoadLongNameEntry at slot `pos`: the final LfnOrdinal and the characters found. */
  function LoadFrom(slots: seq<Slot>, pos: nat, sum: byte, ord: nat, acc: seq<Char16>): (r: (nat, seq<Char16>))
    requires pos <= |slots|
    ensures r.0 >= ord
    decreases pos
  {
    if pos == 0 || !Continues(slots[pos - 1], sum, ord) then (ord, [])
    else if IsLast(slots[pos - 1].ordinal) then (ord + 1, acc + slots[pos - 1].chars)
    else LoadFrom(slots, pos - 1, sum, ord + 1, acc + slots[pos - 1].chars)
  }

  /** A string in a buffer ends at the first NUL. */
  function UpToNul(s: seq<Char16>): seq<Char16> {
    if s == [] || s[0] == 0 then [] else [s[0]] + UpToNul(s[1..])
  }

  /** FatLoadLongNameEntry; `viaCase` is the short name as a string (FatGetFileNameViaCaseFlag). */
  function Parse(viaCase: DirEntry -> seq<Char16>, slots: seq<Slot>, p: nat): DirEnt
    requires p < |slots| && slots[p].Short?
  {
    var e := slots[p].entry;
    var found := LoadFrom(slots, p, SumFrom(e.fileName, 0), 1, []);
    DirEnt(p, found.0, if found.1 == [] then viaCase(e) else UpToNul(found.1), e)
  }

  // ----- writing a long name

  /** LFN_ENTRY_NUMBER. */
  function LfnEntryNumber(len: nat): nat {
    (len + LFN_CHAR_TOTAL - 1) / LFN_CHAR_TOTAL
  }

  /** The buffer FatStoreDirEnt cuts into pieces: the name, a NUL, then 0xFFFF. */
  function PadChar(name: seq<Char16>, i: nat): Char16 {
    if i < |name| then name[i] else if i == |name| then 0 else 0xFFFF
  }

  function PadRange(name: seq<Char16>, from: nat, n: nat): (r: seq<Char16>)
    ensures |r| == n && forall j :: 0 <= j < n ==> r[j] == PadChar(name, from + j)
  {
    if n == 0 then [] else PadRange(name, from, n - 1) + [PadChar(name, from + n - 1)]
  }

  function Piece(name: seq<Char16>, k: nat): (r: LfnChars)
    requires k > 0
  {
    PadRange(name, LFN_CHAR_TOTAL * (k - 1), LFN_CHAR_TOTAL)
  }

  function Padded(name: seq<Char16>, n: nat): seq<Char16> {
    PadRange(name, 0, LFN_CHAR_TOTAL * n)
  }

  /** Long-name slot number `k` of `d`, counted downwards from the short entry. */
  function LfnSlot(d: DirEnt, invalid: bool, k: nat): Slot
    requires 0 < k < d.entryCount <= MAX_LFN_ENTRIES + 1
  {
    Lfn(if invalid then DELETE_ENTRY_MARK else k + if k == d.entryCount - 1 then FAT_LFN_LAST else 0,
        Piece(d.fileString, k), 0, SumFrom(d.entry.fileName, 0), 0)
  }

  /** The range of slots an entry occupies. */
  predicate InRange(d: DirEnt, p: nat) {
    p <= d.entryPos && d.entryPos < p + d.entryCount
  }

  /** FatStoreDirEnt: the directory file after entry `d` has been written. */
  function Stored(slots: seq<Slot>, d: DirEnt, invalid: bool): (r: seq<Slot>)
    requires d.entryCount <= d.entryPos + 1 && d.entryPos < |slots| && d.entryCount <= MAX_LFN_ENTRIES + 1
    ensures |r| == |slots|
    ensures forall p :: 0 <= p < |slots| && p != d.entryPos && !InRange(d, p) ==> r[p] == slots[p]
    ensures r[d.entryPos] == Short(d.entry)
    ensures forall p :: 0 <= p < d.entryPos && InRange(d, p) ==> r[p] == LfnSlot(d, invalid, d.entryPos - p)
  {
    seq(|slots|, p requires 0 <= p < |slots| =>
      if p == d.entryPos then Short(d.entry)
      else if InRange(d, p) then LfnSlot(d, invalid, d.entryPos - p)
      else slots[p])
  }

  /** The least number of pieces of 13 characters that holds `len` characters. */
  predicate LeastPieces(len: nat, pieces: nat) {
    len <= 13 * pieces && (pieces > 0 ==> 13 * (pieces - 1) < len)
  }

  lemma {:induction false} EntryNumberIsLeast(len: nat)
    ensures LeastPieces(len, LfnEntryNumber(len))
  {
  }

  /**
   A long name on the disk: directly below the short entry its first 13 characters, in slot 1, and so on up; the
   topmost slot carries the mark 0x40, and the name ends with a NUL and 0xFFFF if there is room.
   */
  lemma {:induction false} LongNameOnDisk(slots: seq<Slot>, d: DirEnt, k: nat, j: nat)
    requires d.entryCount <= d.entryPos + 1 && d.entryPos < |slots| && d.entryCount <= MAX_LFN_ENTRIES + 1
    requires 1 <= k < d.entryCount && j < 13
    ensures var slots', at := Stored(slots, d, false), 13 * (k - 1) + j;
            && var s := slots'[d.entryPos - k];
               && s.Lfn? && s.ordinal == (if k == d.entryCount - 1 then k + 0x40 else k) && s.checksum == SumFrom(d.entry.fileName, 0) && s.mustBeZero == 0
               && s.chars[j] == (if at < |d.fileString| then d.fileString[at] else if at == |d.fileString| then 0 else 0xFFFF)
  {
    assert InRange(d, d.entryPos - k);
  }

  /** A deleted entry: every slot of it starts with 0xE5 if the short name does. */
  lemma {:induction false} DeletedOnDisk(slots: seq<Slot>, d: DirEnt, p: nat)
    requires d.entryCount <= d.entryPos + 1 && d.entryPos < |slots| && d.entryCount <= MAX_LFN_ENTRIES + 1
    requires d.entry.fileName[0] == 0xE5 && InRange(d, p)
    ensures FirstByte(Stored(slots, d, true)[p]) == 0xE5
  {
  }

  // ----- the round trip

  lemma {:induction false} UpToNulStops(s: seq<Char16>, name: seq<Char16>)
    requires |name| <= |s| && s[..|name|] == name && (|name| < |s| ==> s[|name|] == 0)
    requires forall i :: 0 <= i < |name| ==> name[i] != 0
    ensures UpToNul(s) == name
    decreases |s|
  {
    if name != [] {
      assert s[0] == s[..|name|][0];
      assert s[1..][..|name| - 1] == name[1..];
      UpToNulStops(s[1..], name[1..]);
      assert name == [name[0]] + name[1..];
    }
  }

  /** Padding is dropped again, also when the name fills its last slot and no NUL is stored. */
  lemma {:induction false} PaddedIsName(name: seq<Char16>, n: nat)
    requires |name| <= LFN_CHAR_TOTAL * n && forall i :: 0 <= i < |name| ==> name[i] != 0
    ensures UpToNul(Padded(name, n)) == name
  {
    var s := Padded(name, n);
    assert s[..|name|] == name;
    UpToNulStops(s, name);
  }

  lemma {:induction false} LoadStored(slots: seq<Slot>, d: DirEnt, k: nat)
    requires 0 < k < d.entryCount && d.entryCount <= d.entryPos + 1 && d.entryPos < |slots| && d.entryCount <= MAX_LFN_ENTRIES + 1
    ensures LoadFrom(Stored(slots, d, false), d.entryPos - (k - 1), SumFrom(d.entry.fileName, 0), k, Padded(d.fileString, k - 1))
            == (d.entryCount, Padded(d.fileString, d.entryCount - 1))
    decreases d.entryCount - k
  {
    assert InRange(d, d.entryPos - k);
    assert Stored(slots, d, false)[d.entryPos - (k - 1) - 1] == LfnSlot(d, false, k);
    assert Padded(d.fileString, k - 1) + Piece(d.fileString, k) == Padded(d.fileString, k);
    if k < d.entryCount - 1 { LoadStored(slots, d, k + 1); }
  }

  /** What FatStoreDirEnt expects of a name it spreads over long-name slots. */
  predicate LongNameFits(d: DirEnt) {
    && 0 < |d.fileString| && (forall i :: 0 <= i < |d.fileString| ==> d.fileString[i] != 0)
    && 1 < d.entryCount <= MAX_LFN_ENTRIES + 1 && |d.fileString| <= LFN_CHAR_TOTAL * (d.entryCount - 1)
  }

  /** Reading back what was written gives the same name, the same number of slots, the same entry. */
  lemma {:induction false} LongNameRoundTrip(viaCase: DirEntry -> seq<Char16>, slots: seq<Slot>, d: DirEnt)
    requires LongNameFits(d) && d.entryCount <= d.entryPos + 1 && d.entryPos < |slots|
    ensures Parse(viaCase, Stored(slots, d, false), d.entryPos) == d
  {
    LoadStored(slots, d, 1);
    PaddedIsName(d.fileString, d.entryCount - 1);
  }

  /** Every name of 1 to 255 characters fits the number of slots FatSetEntryCount gives it. */
  lemma {:induction false} EntryCountFits(d: DirEnt)
    requires 0 < |d.fileString| <= 255 && d.entryCount == LfnEntryNumber(|d.fileString|) + 1
    requires forall i :: 0 <= i < |d.fileString| ==> d.fileString[i] != 0
    ensures LongNameFits(d)
  {
  }

  /** A short entry after a slot that does not continue a name has one slot. */
  lemma {:induction false} ShortNameRoundTrip(viaCase: DirEntry -> seq<Char16>, slots: seq<Slot>, d: DirEnt)
    requires d.entryCount == 1 && d.entryPos < |slots| && d.fileString == viaCase(d.entry)
    requires d.entryPos > 0 ==> !Continues(slots[d.entryPos - 1], SumFrom(d.entry.fileName, 0), 1)
    ensures Parse(viaCase, Stored(slots, d, false), d.entryPos) == d
  {
    var slots' := Stored(slots, d, false);
    assert d.entryPos > 0 ==> slots'[d.entryPos - 1] == slots[d.entryPos - 1];
  }

  // ----- what a name depends on

  /** The slots read for one name: all below `pos`, each a long-name slot, within the reported count. */
  lemma {:induction false} LoadRange(slots: seq<Slot>, pos: nat, sum: byte, ord: nat, acc: seq<Char16>)
    requires pos <= |slots|
    ensures var r := LoadFrom(slots, pos, sum, ord, acc);
            && ord <= r.0 <= ord + pos
            && forall p :: pos - (r.0 - ord) <= p < pos ==> slots[p].Lfn? && slots[p].ordinal != DELETE_ENTRY_MARK
    decreases pos
  {
    if pos > 0 && Continues(slots[pos - 1], sum, ord) {
      if !IsLast(slots[pos - 1].ordinal) {
        LoadRange(slots, pos - 1, sum, ord + 1, acc + slots[pos - 1].chars);
      }
    }
  }

  lemma {:induction false} LoadBound(slots: seq<Slot>, pos: nat, sum: byte, ord: nat, acc: seq<Char16>)
    requires pos <= |slots|
    ensures ord <= MAX_LFN_ENTRIES ==> LoadFrom(slots, pos, sum, ord, acc).0 <= MAX_LFN_ENTRIES + 1
    ensures ord > MAX_LFN_ENTRIES ==> LoadFrom(slots, pos, sum, ord, acc).0 == ord
    decreases pos
  {
    if pos > 0 && Continues(slots[pos - 1], sum, ord) && !IsLast(slots[pos - 1].ordinal) {
      LoadBound(slots, pos - 1, sum, ord + 1, acc + slots[pos - 1].chars);
    }
  }

  /** Only the slots below a name's short entry matter to it. */
  lemma {:induction false} LoadBelow(slots: seq<Slot>, slots': seq<Slot>, pos: nat, sum: byte, ord: nat, acc: seq<Char16>)
    requires pos <= |slots| && pos <= |slots'| && forall p :: 0 <= p < pos ==> slots'[p] == slots[p]
    ensures LoadFrom(slots', pos, sum, ord, acc) == LoadFrom(slots, pos, sum, ord, acc)
    decreases pos
  {
    if pos > 0 { LoadBelow(slots, slots', pos - 1, sum, ord + 1, acc + if slots[pos - 1].Lfn? then slots[pos - 1].chars else []); }
  }

  /** A short entry written outside a name's range, and anything below it, does not change the name. */
  lemma {:induction false} LoadAbove(slots: seq<Slot>, slots': seq<Slot>, pos: nat, sum: byte, ord: nat, acc: seq<Char16>, at: nat)
    requires pos <= |slots| && |slots'| >= pos && at < pos && slots'[at].Short?
    requires forall p :: at < p < pos ==> slots'[p] == slots[p]
    requires at + (LoadFrom(slots, pos, sum, ord, acc).0 - ord) < pos
    ensures LoadFrom(slots', pos, sum, ord, acc) == LoadFrom(slots, pos, sum, ord, acc)
    decreases pos
  {
    LoadRange(slots, pos, sum, ord, acc);
    if at < pos - 1 {
      if Continues(slots[pos - 1], sum, ord) && !IsLast(slots[pos - 1].ordinal) {
        LoadAbove(slots, slots', pos - 1, sum, ord + 1, acc + slots[pos - 1].chars, at);
      }
    }
  }
}
