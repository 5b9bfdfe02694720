/**
 The packed file allocation table of FAT12, FAT16 and FAT32 (FatPkg/EnhancedFatDxe/FileSpace.c,
 FatFileSystem.h): one entry read from and written to a flat byte array. Bit masks and shifts are
 written as division and remainder; UINTN is 64 bits wide.
 */
module FatTable {
  import opened Bytes

  datatype FatType = FAT12 | FAT16 | FAT32

  const FAT_CLUSTER_FREE: nat := 0
  const FAT_MIN_CLUSTER: nat := 2
  const FAT_CLUSTER_SPECIAL_EXT: nat := UINTN_LIMIT - 16   // -1 & ~0xF
  const FAT_CLUSTER_SPECIAL: nat := UINTN_LIMIT - 9        // FAT_CLUSTER_SPECIAL_EXT | 7
  const FAT_CLUSTER_LAST: nat := UINTN_LIMIT - 1

  predicate EndOfFatChain(cluster: nat) {
    cluster > FAT_CLUSTER_SPECIAL
  }

  /** The first on-disk value that is not a plain cluster number. */
  function Special(t: FatType): nat {
    match t
    case FAT12 => 0xFF7
    case FAT16 => 0xFFF7
    case FAT32 => 0x0FFFFFF7
  }

  /** One more than the largest value an entry can hold. */
  function EntryLimit(t: FatType): nat {
    match t
    case FAT12 => 0x1000
    case FAT16 => 0x1_0000
    case FAT32 => 0x1000_0000
  }

  function EntrySize(t: FatType): nat {
    if t == FAT32 then 4 else 2
  }

  function EntryPos(t: FatType, index: nat): nat {
    match t
    case FAT12 => index * 3 / 2
    case FAT16 => index * 2
    case FAT32 => index * 4
  }

  /** The last step of FatGetFatEntry: special values are sign-extended to a UINTN. */
  function Extended(t: FatType, raw: nat): nat {
    if raw >= Special(t) then FAT_CLUSTER_SPECIAL_EXT + raw % 16 else raw
  }

  /** Little-endian words. */
  function Word16(b0: int, b1: int): int {
    b0 + 0x100 * b1
  }

  function Word32(b0: int, b1: int, b2: int, b3: int): int {
    b0 + 0x100 * b1 + 0x1_0000 * b2 + 0x100_0000 * b3
  }

  /** FatGetFatEntry on the bytes of the entry. */
  function Decode(t: FatType, b: seq<byte>, index: nat): nat
    requires |b| == EntrySize(t)
  {
    match t
    case FAT12 =>
      var accum := Word16(b[0], b[1]);
      Extended(FAT12, if index % 2 == 1 then accum / 16 else accum % 0x1000)
    case FAT16 => Extended(FAT16, Word16(b[0], b[1]))
    case FAT32 => Extended(FAT32, Word32(b[0], b[1], b[2], b[3]) % 0x1000_0000)
  }

  function Bytes2(v: nat): (r: seq<byte>)
    requires v < 0x1_0000
  {
    [v % 256, v / 256]
  }

  /** The switch of FatSetFatEntry: the new bytes of the entry. */
  function Encode(t: FatType, b: seq<byte>, index: nat, value: nat): (r: seq<byte>)
    requires |b| == EntrySize(t)
    ensures |r| == |b|
  {
    match t
    case FAT12 =>
      var accum, v := Word16(b[0], b[1]), value % 0x1000;
      Bytes2(if index % 2 == 1 then v * 16 + accum % 16 else v + accum / 0x1000 * 0x1000)
    case FAT16 => Bytes2(value % 0x1_0000)
    case FAT32 =>
      var v := value % 0x1000_0000;
      [v % 256, v / 0x100 % 256, v / 0x1_0000 % 256, v / 0x100_0000 + b[3] / 16 * 16]
  }

  function EntryBytes(t: FatType, fat: seq<byte>, index: nat): (r: seq<byte>)
    requires EntryPos(t, index) + EntrySize(t) <= |fat|
    ensures |r| == EntrySize(t)
  {
    fat[EntryPos(t, index)..EntryPos(t, index) + EntrySize(t)]
  }

  /** The value of entry `index` in the table. */
  function Entry(t: FatType, fat: seq<byte>, index: nat): nat
    requires EntryPos(t, index) + EntrySize(t) <= |fat|
  {
    Decode(t, EntryBytes(t, fat, index), index)
  }

  // ----- the table as one number

  lemma {:induction false} EntryFits(t: FatType, i: nat, size: nat)
    requires EntryPos(t, i) + EntrySize(t) <= size
    ensures Width(t) * (i + 1) <= 8 * size
  {
  }

  /** The bits of an entry, and those of its value. */
  function Width(t: FatType): nat {
    match t
    case FAT12 => 12
    case FAT16 => 16
    case FAT32 => 32
  }

  function ValueBits(t: FatType): nat {
    if t == FAT32 then 28 else Width(t)
  }

  /** The `i`-th digit of a number, `w` bits wide. */
  function Digit(number: nat, w: nat, i: nat): nat {
    number / Pow2(w * i) % Pow2(w)
  }

  /** A value of `bits` bits as the driver returns it: the nine largest are read as negative numbers. */
  function SignExtended(raw: nat, bits: nat): nat
    requires raw < Pow2(bits) <= UINTN_LIMIT
  {
    if raw + 9 >= Pow2(bits) then UINTN_LIMIT - (Pow2(bits) - raw) else raw
  }

  lemma {:induction false} DigitOfBytes(fat: seq<byte>, size: nat, i: nat)
    requires size * i + size <= |fat|
    ensures Digit(LittleEndian(fat), 8 * size, i) == LittleEndian(fat[size * i..size * i + size])
  {
    LittleEndianCut(fat, size * i);
    LittleEndianCut(fat[size * i..], size);
    assert 8 * size * i == 8 * (size * i);
    assert fat[size * i..][..size] == fat[size * i..size * i + size];
  }

  lemma {:induction false} WholeWord(s: seq<byte>)
    requires |s| == 2 || |s| == 4
    ensures LittleEndian(s) == if |s| == 2 then Word16(s[0], s[1]) else Word32(s[0], s[1], s[2], s[3])
  {
    var a := s[1..];
    var b := a[1..];
    if |s| == 4 {
      var c := b[1..];
      assert LittleEndian(c) == (s[3] as nat) + 256 * LittleEndian(c[1..]);
      assert LittleEndian(b) == (s[2] as nat) + 256 * LittleEndian(c);
    }
    assert LittleEndian(a) == (s[1] as nat) + 256 * LittleEndian(b);
  }

  lemma {:induction false} LowBits(high: nat, low: nat)
    requires low < 0x1_0000
    ensures (high * 0x1_0000 + low) % 0x1000 == low % 0x1000 && (high * 0x1_0000 + low) / 16 % 0x1000 == low / 16
  {
    QuotientIsUnique(0x1000, high * 16 + low / 0x1000, low % 0x1000);
    QuotientIsUnique(16, high * 0x1000 + low / 16, low % 16);
    QuotientIsUnique(0x1000, high, low / 16);
    assert (high * 16 + low / 0x1000) * 0x1000 + low % 0x1000 == high * 0x1_0000 + low;
    assert (high * 0x1000 + low / 16) * 16 + low % 16 == high * 0x1_0000 + low;
  }

  /** The first two bytes of a number, and what twelve bits of them are. */
  lemma {:induction false} TwoBytes(s: seq<byte>)
    requires |s| >= 2
    ensures LittleEndian(s) % 0x1000 == Word16(s[0], s[1]) % 0x1000 && LittleEndian(s) / 16 % 0x1000 == Word16(s[0], s[1]) / 16
  {
    Pow2Small();
    LittleEndianSplit(s, 2);
    WholeWord(s[..2]);
    hide LittleEndian, Pow2;
    LowBits(LittleEndian(s[2..]), Word16(s[0], s[1]));
  }

  lemma {:induction false} TwelveBits(number: nat, pos: nat, i: nat)
    requires pos == i * 3 / 2
    ensures var m := number / Pow2(8 * pos); Digit(number, 12, i) == if i % 2 == 1 then m / 16 % 0x1000 else m % 0x1000
  {
    hide Pow2;
    Pow2Small();
    var j := i / 2;
    if i % 2 == 1 {
      assert i == 2 * j + 1 && pos == 3 * j + 1;
      assert 12 * i == 8 * pos + 4;
      Pow2Sum(8 * pos, 4);
      QuotientOfProduct(number, Pow2(8 * pos), 16);
    } else {
      assert i == 2 * j && pos == 3 * j;
      assert 12 * i == 8 * pos;
    }
  }

  lemma {:induction false} DigitOf12Bits(fat: seq<byte>, i: nat)
    requires 12 * (i + 1) <= 8 * |fat|
    ensures i * 3 / 2 + 2 <= |fat|
    ensures var word := Word16(fat[i * 3 / 2], fat[i * 3 / 2 + 1]);
            Digit(LittleEndian(fat), 12, i) == if i % 2 == 1 then word / 16 else word % 0x1000
  {
    hide LittleEndian, Pow2, Word16, Digit;
    var pos := i * 3 / 2;
    TwelveBits(LittleEndian(fat), pos, i);
    LittleEndianCut(fat, pos);
    TwoBytes(fat[pos..]);
    assert fat[pos..][0] == fat[pos] && fat[pos..][1] == fat[pos + 1];
  }

  lemma {:induction false} ExtendedIsSign(t: FatType, raw: nat)
    requires raw < EntryLimit(t)
    ensures Pow2(ValueBits(t)) == EntryLimit(t) && Extended(t, raw) == SignExtended(raw, ValueBits(t))
  {
    Pow2Small();
  }

  lemma {:induction false} RawOf12Bits(fat: seq<byte>, i: nat)
    requires 12 * (i + 1) <= 8 * |fat|
    ensures EntryPos(FAT12, i) + EntrySize(FAT12) <= |fat|
    ensures Entry(FAT12, fat, i) == Extended(FAT12, Digit(LittleEndian(fat), 12, i) % 0x1000)
  {
    hide Digit, LittleEndian, Pow2, Extended, Word16;
    DigitOf12Bits(fat, i);
    var b := EntryBytes(FAT12, fat, i);
    assert b[0] == fat[i * 3 / 2] && b[1] == fat[i * 3 / 2 + 1];
    WordFits(b[0], b[1]);
  }

  lemma {:induction false} WordFits(b0: byte, b1: byte)
    ensures 0 <= Word16(b0, b1) / 16 < 0x1000 && 0 <= Word16(b0, b1) < 0x1_0000
  {
  }

  lemma {:induction false} RawOfBytes(t: FatType, fat: seq<byte>, i: nat)
    requires t != FAT12 && Width(t) * (i + 1) <= 8 * |fat|
    ensures EntryPos(t, i) + EntrySize(t) <= |fat|
    ensures Entry(t, fat, i) == Extended(t, Digit(LittleEndian(fat), Width(t), i) % EntryLimit(t))
  {
    hide Digit, LittleEndian, Pow2, Extended, Word16, Word32;
    var size := EntrySize(t);
    assert EntryPos(t, i) == size * i && size * i + size <= |fat|;
    DigitOfBytes(fat, size, i);
    var b := EntryBytes(t, fat, i);
    WholeWord(b);
    if t == FAT16 { WordFits(b[0], b[1]); }
  }

  /**
   The layout of the table in all three widths: read as one little-endian number, its digits are the entries.
   Those of FAT32 have 28 bits that count.
   */
  lemma {:induction false} EntryIsDigit(t: FatType, fat: seq<byte>, i: nat)
    requires Width(t) * (i + 1) <= 8 * |fat|
    ensures EntryPos(t, i) + EntrySize(t) <= |fat| && Pow2(ValueBits(t)) <= UINTN_LIMIT
    ensures Entry(t, fat, i) == SignExtended(Digit(LittleEndian(fat), Width(t), i) % Pow2(ValueBits(t)), ValueBits(t))
  {
    hide Entry, Digit, Extended, SignExtended, LittleEndian, Pow2;
    if t == FAT12 { RawOf12Bits(fat, i); } else { RawOfBytes(t, fat, i); }
    ExtendedIsSign(t, Digit(LittleEndian(fat), Width(t), i) % EntryLimit(t));
  }

  /** What an entry holds after `value` was stored: exactly `value` for every value the driver stores. */
  function Stored(t: FatType, value: nat): nat {
    Extended(t, value % EntryLimit(t))
  }

  /** The values FatSetFatEntry is called with: free, a cluster number, or a special mark. */
  predicate Storable(t: FatType, value: nat) {
    value < Special(t) || FAT_CLUSTER_SPECIAL <= value < UINTN_LIMIT
  }

  /** A sign-extended mark keeps its low bits under the entry mask. */
  lemma {:induction false} MarkMasked(limit: nat, quotient: nat, k: nat)
    requires limit > 16 && k < 16
    ensures (limit * quotient + (limit - 16) + k) % limit == limit - 16 + k
  {
    assert limit * quotient + (limit - 16) + k == quotient * limit + (limit - 16 + k);
    QuotientIsUnique(limit, quotient, limit - 16 + k);
  }

  lemma {:induction false} StoredIsValue(t: FatType, value: nat)
    requires Storable(t, value)
    ensures Stored(t, value) == value
  {
    if value >= FAT_CLUSTER_SPECIAL {
      var k := value - FAT_CLUSTER_SPECIAL_EXT;
      match t
      case FAT12 => MarkMasked(0x1000, 0xF_FFFF_FFFF_FFFF, k);
      case FAT16 => MarkMasked(0x1_0000, 0xFFFF_FFFF_FFFF, k);
      case FAT32 => MarkMasked(0x1000_0000, 0xF_FFFF_FFFF, k);
    }
  }

  lemma {:induction false} Bytes4(v: nat, top: nat)
    requires v < 0x1000_0000
    ensures Word32(v % 256, v / 0x100 % 256, v / 0x1_0000 % 256, v / 0x100_0000 + top * 16) % 0x1000_0000 == v
  {
    var b0, b1, b2, b3 := v % 256, v / 0x100 % 256, v / 0x1_0000 % 256, v / 0x100_0000;
    assert v / 0x100 == v / 0x100_00 * 0x100 + b1;
    assert v / 0x1_0000 == b3 * 0x100 + b2;
    assert Word32(b0, b1, b2, b3) == v;
    assert Word32(b0, b1, b2, b3 + top * 16) == v + 0x1000_0000 * top;
  }

  lemma {:induction false} Bytes2Word(v: nat)
    requires v < 0x1_0000
    ensures Word16(Bytes2(v)[0], Bytes2(v)[1]) == v
  {
  }

  /** A 12-bit field put into the upper or the lower end of a word. */
  lemma {:induction false} Field12(v: nat, low: nat, high: nat)
    requires v < 0x1000 && low < 16 && high < 16
    ensures (v * 16 + low) / 16 == v && (v * 16 + low) % 16 == low
    ensures (v + high * 0x1000) % 0x1000 == v && (v + high * 0x1000) / 0x1000 == high
  {
  }

  lemma {:induction false} DecodeEncode12(b: seq<byte>, index: nat, value: nat)
    requires |b| == 2
    ensures Decode(FAT12, Encode(FAT12, b, index, value), index) == Stored(FAT12, value)
  {
    var accum, v := Word16(b[0], b[1]), value % 0x1000;
    var low, high := accum % 16, accum / 0x1000;
    var w := if index % 2 == 1 then v * 16 + low else v + high * 0x1000;
    Field12(v, low, high);
    Bytes2Word(w);
    assert Encode(FAT12, b, index, value) == Bytes2(w);
  }

  lemma {:induction false} DecodeEncode32(b: seq<byte>, index: nat, value: nat)
    requires |b| == 4
    ensures Decode(FAT32, Encode(FAT32, b, index, value), index) == Stored(FAT32, value)
  {
    Bytes4(value % 0x1000_0000, b[3] / 16);
  }

  /** Decoding what was just encoded. */
  lemma {:induction false} DecodeEncode(t: FatType, b: seq<byte>, index: nat, value: nat)
    requires |b| == EntrySize(t)
    ensures Decode(t, Encode(t, b, index, value), index) == Stored(t, value)
  {
    match t {
      case FAT12 => DecodeEncode12(b, index, value);
      case FAT16 => Bytes2Word(value % 0x1_0000);
      case FAT32 => DecodeEncode32(b, index, value);
    }
  }

  /** FAT12 neighbours share a byte: the half that belongs to the other entry survives. */
  lemma {:induction false} EncodeKeepsNeighbourNibble(b: seq<byte>, index: nat, value: nat)
    requires |b| == 2
    ensures var e := Encode(FAT12, b, index, value);
            if index % 2 == 1 then e[0] % 16 == b[0] % 16 else e[1] / 16 == b[1] / 16
  {
    var accum, v := Word16(b[0], b[1]), value % 0x1000;
    var e := Encode(FAT12, b, index, value);
    if index % 2 == 1 {
      assert e[0] == (v * 16 + accum % 16) % 256;
      assert accum % 16 == b[0] % 16;
    } else {
      assert accum / 0x1000 == b[1] / 16;
      assert e[1] == (v + b[1] / 16 * 0x1000) / 256;
    }
  }

  /** The reserved top nibble of a FAT32 entry survives. */
  lemma {:induction false} EncodeKeepsTopNibble(b: seq<byte>, index: nat, value: nat)
    requires |b| == 4
    ensures Encode(FAT32, b, index, value)[3] / 16 == b[3] / 16
  {
  }

  /** FatSetFatEntry on the table: the entry holds the stored value and every other entry is unchanged. */
  lemma {:induction false} SetEntry(t: FatType, fat: seq<byte>, index: nat, value: nat, other: nat)
    requires EntryPos(t, index) + EntrySize(t) <= |fat| && EntryPos(t, other) + EntrySize(t) <= |fat|
    ensures var fat' := Splice(fat, EntryPos(t, index), Encode(t, EntryBytes(t, fat, index), index, value));
            Entry(t, fat', other) == if other == index then Stored(t, value) else Entry(t, fat, other)
  {
    var b := EntryBytes(t, fat, index);
    var e := Encode(t, b, index, value);
    var pos, fat' := EntryPos(t, index), Splice(fat, EntryPos(t, index), e);
    if other == index {
      DecodeEncode(t, b, index, value);
      assert EntryBytes(t, fat', index) == e;
    } else if t == FAT12 {
      SetNeighbour(fat, index, value, other);
    } else {
      assert EntryBytes(t, fat', other) == EntryBytes(t, fat, other);
    }
  }

  /** Which FAT12 entries overlap. */
  lemma {:induction false} Fat12Overlap(index: nat, other: nat)
    requires other != index
    ensures var pos, p := EntryPos(FAT12, index), EntryPos(FAT12, other);
            && p != pos
            && (p == pos + 1 ==> index % 2 == 0 && other % 2 == 1)
            && (p + 1 == pos ==> index % 2 == 1 && other % 2 == 0)
  {
    var a, r, b, q := index / 2, index % 2, other / 2, other % 2;
    assert EntryPos(FAT12, index) == 3 * a + r && EntryPos(FAT12, other) == 3 * b + q;
  }

  lemma {:induction false} SetNeighbour(fat: seq<byte>, index: nat, value: nat, other: nat)
    requires EntryPos(FAT12, index) + 2 <= |fat| && EntryPos(FAT12, other) + 2 <= |fat| && other != index
    ensures var fat' := Splice(fat, EntryPos(FAT12, index), Encode(FAT12, EntryBytes(FAT12, fat, index), index, value));
            Entry(FAT12, fat', other) == Entry(FAT12, fat, other)
  {
    hide Encode, Decode, EntryPos, Splice;
    var b := EntryBytes(FAT12, fat, index);
    var e := Encode(FAT12, b, index, value);
    EncodeKeepsNeighbourNibble(b, index, value);
    var pos, p := EntryPos(FAT12, index), EntryPos(FAT12, other);
    var c0 := if p == pos + 1 then e[1] else fat[p];
    var c1 := if p + 1 == pos then e[0] else fat[p + 1];
    Fat12Overlap(index, other);
    NibblesDecode(fat[p], fat[p + 1], c0, c1, other);
    SplicedPair(fat, pos, e, p);
    assert EntryBytes(FAT12, fat, index) == [fat[pos], fat[pos + 1]];
    assert EntryBytes(FAT12, Splice(fat, pos, e), other) == [c0, c1];
    assert EntryBytes(FAT12, fat, other) == [fat[p], fat[p + 1]];
  }

  /** Two bytes at `p` after a write of two bytes at another place. */
  lemma {:induction false} SplicedPair(fat: seq<byte>, pos: nat, e: seq<byte>, p: nat)
    requires |e| == 2 && pos + 2 <= |fat| && p + 2 <= |fat| && p != pos
    ensures var fat' := Splice(fat, pos, e);
            |fat'| == |fat| && fat'[p] == (if p == pos + 1 then e[1] else fat[p]) && fat'[p + 1] == if p + 1 == pos then e[0] else fat[p + 1]
  {
  }

  /** A FAT12 entry depends on one whole byte and one nibble only. */
  lemma {:induction false} NibblesDecode(b0: byte, b1: byte, c0: byte, c1: byte, index: nat)
    requires if index % 2 == 1 then b0 / 16 == c0 / 16 && b1 == c1 else b0 == c0 && b1 % 16 == c1 % 16
    ensures Decode(FAT12, [b0, b1], index) == Decode(FAT12, [c0, c1], index)
  {
    if index % 2 == 1 {
      Shift16(b0, b1);
      Shift16(c0, c1);
    } else {
      Mask12(b0, b1);
      Mask12(c0, c1);
    }
  }

  lemma {:induction false} Shift16(b0: byte, b1: byte)
    ensures Word16(b0, b1) / 16 == b0 / 16 + 16 * (b1 as int)
  {
    var h, l := b0 / 16, b0 % 16;
    assert Word16(b0, b1) == 16 * (h + 16 * (b1 as int)) + l;
  }

  lemma {:induction false} Mask12(b0: byte, b1: byte)
    ensures Word16(b0, b1) % 0x1000 == Word16(b0, b1 % 16)
  {
    var h: int, l: int := b1 / 16, b1 % 16;
    assert Word16(b0, b1) == 0x1000 * h + Word16(b0, l);
  }

  /** The volume-dirty mark lives in entry 1 and disturbs no data entry. */
  lemma {:induction false} DirtyMarkKeepsEntries(t: FatType, fat: seq<byte>, mark: seq<byte>, other: nat)
    requires t != FAT12 && |mark| == EntrySize(t) && other >= FAT_MIN_CLUSTER
    requires EntryPos(t, other) + EntrySize(t) <= |fat|
    ensures Entry(t, Splice(fat, EntrySize(t), mark), other) == Entry(t, fat, other)
  {
    assert EntryBytes(t, Splice(fat, EntrySize(t), mark), other) == EntryBytes(t, fat, other);
  }
}
