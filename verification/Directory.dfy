/**
 An open directory: lazy loading, search, creation and removal of entries in
 FatPkg/EnhancedFatDxe/DirectoryManage.c and the generation of short names in FileName.c. The
 directory file is a sequence of 32-byte slots; FAT_ODIR's child list and hash buckets are sequences.
 */
module Directory {
  import opened Bytes
  import opened DiskCache
  import opened LongName
  import opened ShortName
  import opened DirScan
  import opened DirIndex
  import opened Wrappers

  const FAT_MAX_DIRENTRY_COUNT: nat := 0xFFFF
  const MAX_SPEC_RETRY: nat := 4
  const SPEC_BASE_TAG_LEN: nat := 6
  const HASH_BASE_TAG_LEN: nat := 2
  const HASH_VALUE_TAG_LEN: nat := 4
  const TILDE: byte := 126
  const ONE: byte := 49

  // ----- generated short names

  function SpecBase(tag: FatName): (r: nat)
    ensures r <= SPEC_BASE_TAG_LEN
  {
    Min(TrimLen(tag, FAT_MAIN_NAME_LEN), SPEC_BASE_TAG_LEN)
  }

  /** The numeric tail the FAT specification describes: base tag, tilde, digit. */
  function SpecForm(tag: FatName, c: byte): FatName {
    tag[SpecBase(tag) := TILDE][SpecBase(tag) + 1 := c]
  }

  function HexDigit(crc: nat, i: nat): byte {
    var v := (if i == 0 then crc else if i == 1 then crc / 0x100 else if i == 2 then crc / 0x1_0000 else crc / 0x100_0000) % 16;
    if v > 9 then v - 10 + 65 else v + 48
  }

  function HexTag(crc: nat): (r: seq<byte>)
    ensures |r| == HASH_VALUE_TAG_LEN
  {
    [HexDigit(crc, 0), HexDigit(crc, 1), HexDigit(crc, 2), HexDigit(crc, 3)]
  }

  function HashBase(tag: FatName): (r: nat)
    ensures r <= HASH_BASE_TAG_LEN
  {
    Min(SpecBase(tag), HASH_BASE_TAG_LEN)
  }

  /** The fallback form: two base characters, four hash digits, tilde, a counting character. */
  function HashForm(crc: nat, tag: FatName, c: byte): FatName {
    var b := HashBase(tag);
    tag[..b] + HexTag(crc) + [TILDE, c] + tag[b + HASH_VALUE_TAG_LEN + 2..]
  }

  /** The value of a hexadecimal digit, 16 for anything else. */
  function HexValue(b: byte): nat {
    if 48 <= b <= 57 then b - 48 else if 65 <= b <= 70 then b - 65 + 10 else 16
  }

  /** The numeric tail, character by character: the base is the trimmed main part, at most six characters of it. */
  lemma {:induction false} SpecFormIs(tag: FatName, c: byte)
    ensures var k := SpecBase(tag);
            && k <= 6 && (k < 6 ==> (forall j :: k <= j < 8 ==> tag[j] == 32) && (k > 0 ==> tag[k - 1] != 32))
            && SpecForm(tag, c) == tag[..k] + [126, c] + tag[k + 2..]
  {
    TrimLenCuts(tag, FAT_MAIN_NAME_LEN);
    hide TrimLen;
  }

  lemma {:induction false} HexDigitIs(crc: nat, i: nat)
    requires i < 4
    ensures HexValue(HexDigit(crc, i)) == crc / Pow2(8 * i) % 16 && HexTag(crc)[i] == HexDigit(crc, i)
  {
    assert Pow2(0) == 1;
    Pow2Small();
    Pow2Sum(8, 16);
    hide Pow2;
  }

  /** The fallback keeps at most two characters of the base and shows the low four bits of each byte of the hash. */
  lemma {:induction false} HashFormIs(crc: nat, tag: FatName, c: byte, i: nat)
    requires i < 4
    ensures var b, h := if SpecBase(tag) < 2 then SpecBase(tag) else 2, HashForm(crc, tag, c);
            h[..b] == tag[..b] && HexValue(h[b + i]) == crc / Pow2(8 * i) % 16 && h[b + 4] == 126 && h[b + 5] == c && h[b + 6..] == tag[b + 6..]
  {
    hide HexDigit, HexValue, Pow2, TrimLen, SpecBase, HexTag;
    HexDigitIs(crc, i);
    assert HashForm(crc, tag, c)[HashBase(tag) + i] == HexTag(crc)[i];
  }

  /** The inner loop of FatCreate8Dot3Name, which overwrites the name with the fallback form. */
  method WriteHashForm(short: FatName, tag: FatName, crc: nat, ghost c: byte) returns (r: FatName)
    requires short == SpecForm(tag, c)
    ensures r == HashForm(crc, tag, ONE)
  {
    r := short;
    var b := HashBase(tag);
    var index := 0;
    while index < HASH_VALUE_TAG_LEN
      invariant 0 <= index <= HASH_VALUE_TAG_LEN
      invariant forall i :: 0 <= i < FAT_NAME_LEN ==> r[i] == if b <= i < b + index then HexTag(crc)[i - b] else short[i]
    {
      r := r[b + index := HexDigit(crc, index)];
      index := index + 1;
    }
    r := r[b + index := TILDE][b + index + 1 := ONE];
    assert forall i :: 0 <= i < b ==> short[i] == tag[i];
    assert forall i :: b + HASH_VALUE_TAG_LEN + 2 <= i < FAT_NAME_LEN ==> short[i] == tag[i];
    assert r == HashForm(crc, tag, ONE);
  }

  /** `(CHAR8) (c + 1)`. */
  function Succ(c: byte): byte {
    if c == 255 then 0 else c + 1
  }

  function Distance(c: byte, d: byte): nat {
    if c <= d then d - c else d + 256 - c
  }

  ghost predicate ShortFree(list: seq<DirEnt>, short: FatName) {
    forall e :: e in list ==> e.entry.fileName != short
  }

  /** FatCreate8Dot3Name: a short name no listed entry has. */
  method Create8Dot3Name(col: Collation, table: seq<seq<DirEnt>>, ghost list: seq<DirEnt>, name: Name, tag: FatName, ghost free: byte) returns (short: FatName)
    requires Lawful(col) && Indexed(col, false, table, list)
    requires ShortFree(list, HashForm(col.longCrc(name), tag, free))
    ensures ShortFree(list, short)
    ensures (exists c: byte :: ONE <= c < ONE + MAX_SPEC_RETRY && short == SpecForm(tag, c))
            || exists c: byte :: short == HashForm(col.longCrc(name), tag, c)
  {
    hide Indexed, Lawful;
    IndexedSize(col, false, table, list);
    var crc := col.longCrc(name);
    var n := TrimAsciiTrailingBlanks(tag, FAT_MAIN_NAME_LEN);
    var baseTagLen := if n > SPEC_BASE_TAG_LEN then SPEC_BASE_TAG_LEN else n;
    var at := baseTagLen + 1;
    short := tag[baseTagLen := TILDE][at := ONE];
    var retry := 0;
    ghost var c: byte := ONE;
    while true
      invariant retry < MAX_SPEC_RETRY ==> at == SpecBase(tag) + 1 && c == ONE + retry && short == SpecForm(tag, c)
      invariant retry >= MAX_SPEC_RETRY ==> at == HashBase(tag) + HASH_VALUE_TAG_LEN + 1 && short == HashForm(crc, tag, c)
      decreases if retry < MAX_SPEC_RETRY then 300 - retry else Distance(c, free)
    {
      var b, i := ShortNameHashSearch(col, table, short);
      if i == |table[b]| {
        NotInBucket(col, false, table, list, [], short);
        return;
      }
      assert table[b][i] in table[b];
      IndexedListed(col, false, table, list, b, table[b][i]);
      short := short[at := Succ(short[at])];
      retry := retry + 1;
      if retry == MAX_SPEC_RETRY {
        short := WriteHashForm(short, tag, crc, Succ(c));
        at := HashBase(tag) + HASH_VALUE_TAG_LEN + 1;
        c := ONE;
      } else {
        if retry > MAX_SPEC_RETRY {
          assert c != free;
          assert short == HashForm(crc, tag, Succ(c));
        }
        c := Succ(c);
      }
    }
  }

  lemma {:induction false} IndexedSize(col: Collation, long: bool, table: seq<seq<DirEnt>>, list: seq<DirEnt>)
    requires Indexed(col, long, table, list)
    ensures |table| == HASH_TABLE_SIZE
  {
  }

  lemma {:induction false} IndexedListed(col: Collation, long: bool, table: seq<seq<DirEnt>>, list: seq<DirEnt>, b: nat, e: DirEnt)
    requires Indexed(col, long, table, list) && b < |table| && e in table[b]
    ensures e in list && HashOf(col, long, e) == b
  {
  }

  lemma {:induction false} FormsAreNames(crc: nat, tag: FatName, c: byte)
    requires NotAMark(tag[0])
    ensures NotAMark(SpecForm(tag, c)[0]) && NotAMark(HashForm(crc, tag, c)[0])
  {
  }

  lemma {:induction false} ShortFormIsName(col: Collation, name: Name)
    requires Lawful(col)
    ensures NotAMark(To8Dot3(col, name)[0])
  {
  }

  // ----- the directory as a value

  /** From slot `end` on the directory is empty. */
  ghost predicate AllEnd(slots: seq<Slot>, end: nat) {
    forall p :: end <= p < |slots| ==> IsEnd(slots[p])
  }

  ghost predicate NoneEnd(slots: seq<Slot>, end: nat)
    requires end <= |slots|
  {
    forall p :: 0 <= p < end ==> !IsEnd(slots[p])
  }

  /** What the disk has to be: names unique, nothing after the end. */
  ghost predicate DiskOk(col: Collation, slots: seq<Slot>) {
    && |slots| <= UINT16_LIMIT && Clean(slots)
    && Unique(col, Scan(Via(col), slots, 0, |slots|))
  }

  /** The child list and both tables agree with the slots before `end`. */
  ghost predicate Loaded(col: Collation, slots: seq<Slot>, end: nat, list: seq<DirEnt>, longHash: seq<seq<DirEnt>>, shortHash: seq<seq<DirEnt>>) {
    && end <= |slots| && NoneEnd(slots, end) && list == Scan(Via(col), slots, 0, end)
    && Indexed(col, true, longHash, list) && Indexed(col, false, shortHash, list)
  }

  lemma {:induction false} AllAtEnd(col: Collation, slots: seq<Slot>, end: nat)
    requires end <= |slots| && AllEnd(slots, end)
    ensures Scan(Via(col), slots, 0, |slots|) == Scan(Via(col), slots, 0, end)
  {
    ScanSplit(Via(col), slots, 0, end, |slots|);
    ScanNone(Via(col), slots, end, |slots|);
  }

  lemma {:induction false} NotYetListed(col: Collation, slots: seq<Slot>, end: nat, e: DirEnt)
    requires end <= e.entryPos && end <= |slots|
    ensures e !in Scan(Via(col), slots, 0, end)
  {
    ScanHas(Via(col), slots, 0, end, e);
  }

  /** Loading one more live slot. */
  lemma {:induction false} LoadStep(col: Collation, slots: seq<Slot>, end: nat, list: seq<DirEnt>, longHash: seq<seq<DirEnt>>, shortHash: seq<seq<DirEnt>>)
    requires Loaded(col, slots, end, list, longHash, shortHash) && end < |slots| && Live(slots[end])
    ensures |longHash| == HASH_TABLE_SIZE && |shortHash| == HASH_TABLE_SIZE
    ensures var d := Parse(Via(col), slots, end);
            Loaded(col, slots, end + 1, list + [d], Inserted(col, true, longHash, d), Inserted(col, false, shortHash, d))
  {
    hide Indexed;
    var d := Parse(Via(col), slots, end);
    IndexedSize(col, true, longHash, list);
    IndexedSize(col, false, shortHash, list);
    NotYetListed(col, slots, end, d);
    InsertedIndexed(col, true, longHash, list, d, list + [d]);
    InsertedIndexed(col, false, shortHash, list, d, list + [d]);
  }

  /** Passing a slot that holds no entry. */
  lemma {:induction false} SkipStep(col: Collation, slots: seq<Slot>, end: nat, list: seq<DirEnt>, longHash: seq<seq<DirEnt>>, shortHash: seq<seq<DirEnt>>)
    requires Loaded(col, slots, end, list, longHash, shortHash) && end < |slots| && !Live(slots[end]) && !IsEnd(slots[end])
    ensures Loaded(col, slots, end + 1, list, longHash, shortHash)
  {
  }

  lemma {:induction false} LoadedEnd(col: Collation, slots: seq<Slot>, end: nat, list: seq<DirEnt>, longHash: seq<seq<DirEnt>>, shortHash: seq<seq<DirEnt>>)
    requires Loaded(col, slots, end, list, longHash, shortHash)
    ensures end <= |slots| && |longHash| == HASH_TABLE_SIZE && |shortHash| == HASH_TABLE_SIZE
  {
  }

  // ----- removing an entry

  lemma {:induction false} SortedIsInjective(list: seq<DirEnt>, i: nat, j: nat)
    requires Sorted(list) && i < |list| && j < |list| && list[i] == list[j]
    ensures i == j
  {
  }

  function Without(list: seq<DirEnt>, at: nat): seq<DirEnt>
    requires at < |list|
  {
    list[..at] + list[at + 1..]
  }

  lemma {:induction false} WithoutHas(list: seq<DirEnt>, at: nat)
    requires Sorted(list) && at < |list|
    ensures forall e :: e in Without(list, at) <==> e in list && e != list[at]
  {
    forall e | e in list && e != list[at] ensures e in Without(list, at) {
      var k :| 0 <= k < |list| && list[k] == e;
      assert Without(list, at)[if k < at then k else k - 1] == e;
    }
    if list[at] in Without(list, at) {
      var k :| 0 <= k < |list| - 1 && Without(list, at)[k] == list[at];
      SortedIsInjective(list, if k < at then k else k + 1, at);
    }
  }

  /** The scan up to `hi` loses the entry at index `at`. */
  lemma {:induction false} ScanWithout(col: Collation, slots: seq<Slot>, d: DirEnt, hi: nat, at: nat)
    requires d.entryPos < hi <= |slots| && Live(slots[d.entryPos]) && Parse(Via(col), slots, d.entryPos) == d
    requires var list := Scan(Via(col), slots, 0, hi); at < |list| && list[at] == d
    ensures 1 <= d.entryCount <= d.entryPos + 1 && d.entryCount <= MAX_LFN_ENTRIES + 1
    ensures Scan(Via(col), Stored(slots, Marked(d), true), 0, hi) == Without(Scan(Via(col), slots, 0, hi), at)
  {
    hide Live, Parse, Sorted;
    RemoveFromScan(Via(col), slots, d, hi);
    var list, before := Scan(Via(col), slots, 0, hi), Scan(Via(col), slots, 0, d.entryPos + 1 - d.entryCount);
    ScanSorted(Via(col), slots, 0, hi);
    assert list[|before|] == d;
    SortedIsInjective(list, at, |before|);
  }

  lemma {:induction false} RemoveKeepsEnds(col: Collation, slots: seq<Slot>, d: DirEnt)
    requires d.entryPos < |slots| && Live(slots[d.entryPos]) && Parse(Via(col), slots, d.entryPos) == d
    ensures 1 <= d.entryCount <= d.entryPos + 1 && d.entryCount <= MAX_LFN_ENTRIES + 1
    ensures forall p :: 0 <= p < |slots| ==> IsEnd(Stored(slots, Marked(d), true)[p]) == IsEnd(slots[p])
  {
    EntryOwnsItsSlots(Via(col), slots, d);
    hide LoadFrom, Parse;
    var slots' := Stored(slots, Marked(d), true);
    forall p | 0 <= p < |slots| ensures IsEnd(slots'[p]) == IsEnd(slots[p]) {
      if InRange(d, p) && p != d.entryPos { assert slots'[p].Lfn? && slots[p].Lfn?; }
    }
  }

  lemma {:induction false} RemoveKeepsDisk(col: Collation, slots: seq<Slot>, d: DirEnt)
    requires DiskOk(col, slots) && d.entryPos < |slots| && Live(slots[d.entryPos]) && Parse(Via(col), slots, d.entryPos) == d
    ensures 1 <= d.entryCount <= d.entryPos + 1 && d.entryCount <= MAX_LFN_ENTRIES + 1
    ensures DiskOk(col, Stored(slots, Marked(d), true))
    ensures NoOrphans(slots) ==> NoOrphans(Stored(slots, Marked(d), true))
  {
    hide Unique, IsEnd, Parse, Live, NoOrphans;
    ScanHas(Via(col), slots, 0, |slots|, d);
    var all := Scan(Via(col), slots, 0, |slots|);
    var at :| 0 <= at < |all| && all[at] == d;
    ScanWithout(col, slots, d, |slots|, at);
    assert all == all[..at] + [d] + all[at + 1..];
    UniquePart(col, all[..at], [d], all[at + 1..]);
    if NoOrphans(slots) { RemoveKeepsNoOrphans(Via(col), slots, d); }
    RemoveKeepsEnds(col, slots, d);
  }

  lemma {:induction false} WithoutIs(list: seq<DirEnt>, at: nat)
    requires at < |list|
    ensures Without(list, at) == list[..at] + list[at + 1..]
  {
  }

  lemma {:induction false} RemovedFromAll(col: Collation, slots: seq<Slot>, d: DirEnt)
    requires d.entryPos < |slots| && Live(slots[d.entryPos]) && Parse(Via(col), slots, d.entryPos) == d
    ensures 1 <= d.entryCount <= d.entryPos + 1 && d.entryCount <= MAX_LFN_ENTRIES + 1
    ensures forall e :: e in Scan(Via(col), Stored(slots, Marked(d), true), 0, |slots|) <==> e in Scan(Via(col), slots, 0, |slots|) && e != d
  {
    hide Live, Parse;
    ScanHas(Via(col), slots, 0, |slots|, d);
    var all := Scan(Via(col), slots, 0, |slots|);
    var at :| 0 <= at < |all| && all[at] == d;
    ScanWithout(col, slots, d, |slots|, at);
    ScanSorted(Via(col), slots, 0, |slots|);
    WithoutHas(all, at);
  }

  lemma {:induction false} RemovedSlots(col: Collation, slots: seq<Slot>, d: DirEnt)
    requires d.entryPos < |slots| && Live(slots[d.entryPos]) && Parse(Via(col), slots, d.entryPos) == d
    ensures 1 <= d.entryCount <= d.entryPos + 1 && d.entryCount <= MAX_LFN_ENTRIES + 1
    ensures forall p :: 0 <= p < |slots| ==>
      if InRange(d, p) then FirstByte(Stored(slots, Marked(d), true)[p]) == DELETE_ENTRY_MARK else Stored(slots, Marked(d), true)[p] == slots[p]
  {
    EntryOwnsItsSlots(Via(col), slots, d);
  }

  lemma {:induction false} SameNamesClash(col: Collation, long: bool, d: DirEnt, e: DirEnt)
    requires Lawful(col) && SameNames(col, long, e, d.fileString, d.entry.fileName)
    ensures !Apart(col, d, e) && !Apart(col, e, d)
  {
  }

  lemma {:induction false} SameNamesSameEntry(col: Collation, long: bool, list: seq<DirEnt>, d: DirEnt, e: DirEnt)
    requires Lawful(col) && Unique(col, list) && d in list && e in list
    requires SameNames(col, long, e, d.fileString, d.entry.fileName)
    ensures e == d
  {
    SameNamesClash(col, long, d, e);
    hide Lawful, SameNames, Apart, Consistent;
    var m, n :| 0 <= m < |list| && 0 <= n < |list| && list[m] == d && list[n] == e;
  }

  /** The first node with the entry's name is the entry. */
  lemma {:induction false} OwnNode(col: Collation, long: bool, table: seq<seq<DirEnt>>, list: seq<DirEnt>, d: DirEnt, b: nat, i: nat)
    requires Lawful(col) && Unique(col, list) && Indexed(col, long, table, list) && d in list && b == HashOf(col, long, d)
    requires b < |table| && i <= |table[b]|
    requires forall k :: 0 <= k < i ==> !SameNames(col, long, table[b][k], d.fileString, d.entry.fileName)
    requires i < |table[b]| ==> SameNames(col, long, table[b][i], d.fileString, d.entry.fileName)
    ensures i < |table[b]| && table[b][i] == d
  {
    hide Lawful, SameNames, Unique, HashOf, NoDuplicates;
    OwnNames(col, long, d);
    assert d in table[b];
    var k :| 0 <= k < |table[b]| && table[b][k] == d;
    assert i <= k;
    assert table[b][i] in table[b];
    SameNamesSameEntry(col, long, list, d, table[b][i]);
  }

  lemma {:induction false} OwnNames(col: Collation, long: bool, d: DirEnt)
    requires Lawful(col)
    ensures SameNames(col, long, d, d.fileString, d.entry.fileName)
  {
  }

  // ----- adding an entry

  /** The new entry lies between child `at - 1` and child `at`, and a position past the end leaves no hole. */
  ghost predicate Between(list: seq<DirEnt>, end: nat, d: DirEnt, at: nat) {
    && at <= |list| && 1 <= d.entryCount <= d.entryPos + 1
    && (forall i :: 0 <= i < at ==> list[i].entryPos + d.entryCount <= d.entryPos)
    && (forall i :: at <= i < |list| ==> d.entryPos + list[i].entryCount <= list[i].entryPos)
    && (d.entryPos >= end ==> d.entryPos + 1 - d.entryCount == end)
  }

  function NewEnd(end: nat, d: DirEnt): nat {
    if d.entryPos >= end then d.entryPos + 1 else end
  }

  lemma {:induction false} ScanPosition(col: Collation, slots: seq<Slot>, lo: nat, hi: nat, i: nat)
    requires lo <= hi <= |slots| && i < |Scan(Via(col), slots, lo, hi)|
    ensures lo <= Scan(Via(col), slots, lo, hi)[i].entryPos < hi
  {
    ScanHas(Via(col), slots, lo, hi, Scan(Via(col), slots, lo, hi)[i]);
  }

  /** A gap between children holds no live slot, and no later entry reaches into it. */
  lemma {:induction false} GapIsVacant(col: Collation, slots: seq<Slot>, end: nat, d: DirEnt, at: nat)
    requires end <= |slots| && AllEnd(slots, end) && Between(Scan(Via(col), slots, 0, end), end, d, at)
    requires d.entryPos < |slots| && d.entryCount <= MAX_LFN_ENTRIES + 1
    ensures Vacant(slots, d)
  {
    hide Parse;
    var list := Scan(Via(col), slots, 0, end);
    forall q: nat | q < |slots| && Live(slots[q]) ensures !InRange(d, q) && (d.entryPos < q ==> d.entryPos + Count(slots, q) <= q) {
      assert q < end;
      LiveIsListed(col, slots, end, q);
      var i :| 0 <= i < |list| && list[i].entryPos == q && list[i].entryCount == Count(slots, q);
    }
  }

  lemma {:induction false} LiveIsListed(col: Collation, slots: seq<Slot>, end: nat, q: nat)
    requires q < end <= |slots| && Live(slots[q])
    ensures var list := Scan(Via(col), slots, 0, end);
            exists i :: 0 <= i < |list| && list[i].entryPos == q && list[i].entryCount == Count(slots, q)
  {
    var e := Parse(Via(col), slots, q);
    ScanHas(Via(col), slots, 0, end, e);
  }

  lemma {:induction false} ConcatAt(a: seq<DirEnt>, b: seq<DirEnt>, i: nat)
    requires i < |a + b|
    ensures (a + b)[i] == if i < |a| then a[i] else b[i - |a|]
  {
  }

  lemma {:induction false} SplitAtEntry(a: seq<DirEnt>, b: seq<DirEnt>, end: nat, d: DirEnt, at: nat)
    requires Between(a + b, end, d, at)
    requires (forall i :: 0 <= i < |a| ==> a[i].entryPos < d.entryPos) && (forall i :: 0 <= i < |b| ==> b[i].entryPos > d.entryPos)
    ensures |a| == at
  {
    if |a| < at { ConcatAt(a, b, |a|); }
    if at < |a| { ConcatAt(a, b, at); }
  }

  lemma {:induction false} ScanPositions(col: Collation, slots: seq<Slot>, lo: nat, hi: nat)
    requires lo <= hi <= |slots|
    ensures forall i :: 0 <= i < |Scan(Via(col), slots, lo, hi)| ==> lo <= Scan(Via(col), slots, lo, hi)[i].entryPos < hi
  {
    forall i | 0 <= i < |Scan(Via(col), slots, lo, hi)| ensures lo <= Scan(Via(col), slots, lo, hi)[i].entryPos < hi {
      ScanPosition(col, slots, lo, hi, i);
    }
  }

  /** The scan gains the new entry at index `at`. */
  lemma {:induction false} ScanWith(col: Collation, slots: seq<Slot>, end: nat, d: DirEnt, at: nat)
    requires end <= |slots| && AllEnd(slots, end) && Between(Scan(Via(col), slots, 0, end), end, d, at)
    requires Vacant(slots, d) && Storable(Via(col), d) && NoOrphans(slots)
    ensures var list := Scan(Via(col), slots, 0, end);
            && NewEnd(end, d) <= |slots| && at <= |list|
            && Scan(Via(col), Stored(slots, d, false), 0, NewEnd(end, d)) == list[..at] + [d] + list[at..]
  {
    hide Scan, Stored, Storable, NoOrphans, AllEnd, Live, Count, LoadFrom, Parse, InRange;
    var list, hi, lo := Scan(Via(col), slots, 0, end), NewEnd(end, d), d.entryPos + 1 - d.entryCount;
    assert hi <= |slots|;
    NoneAfterEnd(col, slots, end, hi);
    WriteAddsToScan(Via(col), slots, d, hi);
    hide Between, Vacant;
    ScanPositions(col, slots, 0, lo);
    ScanPositions(col, slots, d.entryPos + 1, hi);
    SplitAtEntry(Scan(Via(col), slots, 0, lo), Scan(Via(col), slots, d.entryPos + 1, hi), end, d, at);
  }

  lemma {:induction false} NoneAfterEnd(col: Collation, slots: seq<Slot>, end: nat, hi: nat)
    requires end <= hi <= |slots| && AllEnd(slots, end)
    ensures Scan(Via(col), slots, 0, hi) == Scan(Via(col), slots, 0, end)
  {
    ScanSplit(Via(col), slots, 0, end, hi);
    EndsAreDead(slots, end);
    ScanNone(Via(col), slots, end, hi);
  }

  lemma {:induction false} EndsAreDead(slots: seq<Slot>, end: nat)
    requires AllEnd(slots, end)
    ensures forall p :: end <= p < |slots| ==> !Live(slots[p])
  {
  }

  /** Where the end of the directory is after the write. */
  lemma {:induction false} WriteMovesEnd(slots: seq<Slot>, end: nat, d: DirEnt)
    requires end <= |slots| && NoneEnd(slots, end) && AllEnd(slots, end) && Vacant(slots, d) && Live(Short(d.entry))
    requires d.entryPos >= end ==> d.entryPos + 1 - d.entryCount == end
    ensures NewEnd(end, d) <= |slots| && NoneEnd(Stored(slots, d, false), NewEnd(end, d))
    ensures AllEnd(Stored(slots, d, false), NewEnd(end, d)) && Clean(Stored(slots, d, false))
  {
    hide LoadFrom, Count;
    var slots', end' := Stored(slots, d, false), NewEnd(end, d);
    forall p | 0 <= p < |slots| ensures IsEnd(slots'[p]) <==> p >= end' {
      assert p == d.entryPos ==> InRange(d, p);
      if p != d.entryPos && InRange(d, p) { assert slots'[p].Lfn?; }
    }
  }

  /** FatCreateDirEnt keeps the disk, the list and both tables in agreement. */
  lemma {:induction false} CreateKeeps(col: Collation, slots: seq<Slot>, end: nat, list: seq<DirEnt>, longHash: seq<seq<DirEnt>>, shortHash: seq<seq<DirEnt>>, d: DirEnt, at: nat)
    requires Lawful(col) && DiskOk(col, slots) && NoOrphans(slots) && Loaded(col, slots, end, list, longHash, shortHash) && AllEnd(slots, end)
    requires Between(list, end, d, at) && d.entryPos < |slots| && d.entryCount <= MAX_LFN_ENTRIES + 1
    requires Storable(Via(col), d) && Consistent(col, d) && forall k :: 0 <= k < |list| ==> Apart(col, d, list[k])
    ensures |longHash| == HASH_TABLE_SIZE && |shortHash| == HASH_TABLE_SIZE && NewEnd(end, d) <= |slots|
    ensures var slots', list' := Stored(slots, d, false), list[..at] + [d] + list[at..];
            && DiskOk(col, slots') && NoOrphans(slots') && AllEnd(slots', NewEnd(end, d))
            && Loaded(col, slots', NewEnd(end, d), list', Inserted(col, true, longHash, d), Inserted(col, false, shortHash, d))
            && Scan(Via(col), slots', 0, |slots'|) == list'
            && Scan(Via(col), slots, 0, |slots|) == list
  {
    assert Live(Short(d.entry));
    hide IsEnd, Live, Storable, NoOrphans, Lawful, Apart, Consistent, Scan, Stored;
    GapIsVacant(col, slots, end, d, at);
    ScanWith(col, slots, end, d, at);
    WriteMovesEnd(slots, end, d);
    WriteKeepsNoOrphans(Via(col), slots, d);
    AllAtEnd(col, slots, end);
    AllAtEnd(col, Stored(slots, d, false), NewEnd(end, d));
    UniqueInsert(col, list, at, d);
    var list' := list[..at] + [d] + list[at..];
    assert d !in list by { NotAmong(col, list, d); }
    assert forall e :: e in list' <==> e in list || e == d by { assert list == list[..at] + list[at..]; }
    InsertedIndexed(col, true, longHash, list, d, list');
    InsertedIndexed(col, false, shortHash, list, d, list');
  }

  lemma {:induction false} NotAmong(col: Collation, list: seq<DirEnt>, d: DirEnt)
    requires forall k :: 0 <= k < |list| ==> Apart(col, d, list[k])
    ensures d !in list
  {
  }

  /** A slot of a freshly zeroed cluster. */
  function BlankSlot(): Slot {
    Short(RawEntry(seq(FAT_NAME_LEN, _ => EMPTY_ENTRY_MARK), 0, 0, []))
  }

  /** FatExpandODir adds a zeroed cluster: nothing is listed in it. */
  lemma {:induction false} ExpandKeeps(col: Collation, slots: seq<Slot>, end: nat, list: seq<DirEnt>, longHash: seq<seq<DirEnt>>, shortHash: seq<seq<DirEnt>>, k: nat)
    requires DiskOk(col, slots) && Loaded(col, slots, end, list, longHash, shortHash) && AllEnd(slots, end)
    requires |slots| + k <= UINT16_LIMIT
    ensures var slots' := slots + seq(k, _ => BlankSlot());
            DiskOk(col, slots') && (NoOrphans(slots) ==> NoOrphans(slots')) && Loaded(col, slots', end, list, longHash, shortHash) && AllEnd(slots', end)
  {
    hide Indexed, IsEnd, Unique, LoadFrom, BlankSlot, Live, NoOrphans, Scan;
    var slots' := slots + seq(k, _ => BlankSlot());
    BlankIsEnd();
    assert forall p: nat :: p < |slots| ==> slots'[p] == slots[p];
    ScanLonger(col, slots, slots', end);
    AllAtEnd(col, slots, end);
    AllAtEnd(col, slots', end);
    if NoOrphans(slots) { BlanksKeepNoOrphans(col, slots, k); }
  }

  lemma {:induction false} BlankIsEnd()
    ensures IsEnd(BlankSlot()) && !BlankSlot().Lfn?
  {
  }

  lemma {:induction false} ScanLonger(col: Collation, slots: seq<Slot>, slots': seq<Slot>, end: nat)
    requires end <= |slots| <= |slots'| && forall p: nat :: p < |slots| ==> slots'[p] == slots[p]
    ensures Scan(Via(col), slots', 0, end) == Scan(Via(col), slots, 0, end)
  {
    hide LoadFrom, Live;
    forall p: nat | p < end ensures SameAt(Via(col), slots, slots', p) {
      if Live(slots[p]) {
        LiveIsShort(slots[p]);
        ParseBelow(Via(col), slots, slots', p);
      }
    }
    ScanSame(Via(col), slots, slots', 0, end);
  }

  lemma {:induction false} BlanksKeepNoOrphans(col: Collation, slots: seq<Slot>, k: nat)
    requires NoOrphans(slots)
    ensures NoOrphans(slots + seq(k, _ => BlankSlot()))
  {
    hide LoadFrom, Live, BlankSlot;
    var slots' := slots + seq(k, _ => BlankSlot());
    BlankIsEnd();
    forall p: nat | p < |slots'| && slots'[p].Lfn? && slots'[p].ordinal != DELETE_ENTRY_MARK ensures exists q: nat :: Covers(slots', p, q) {
      assert p < |slots| && slots'[p] == slots[p];
      var q: nat :| Covers(slots, p, q);
      LiveIsShort(slots[q]);
      ParseBelow(Via(col), slots, slots', q);
      assert Parse(Via(col), slots', q).entryCount == Count(slots', q) && Parse(Via(col), slots, q).entryCount == Count(slots, q);
      assert Covers(slots', p, q);
    }
  }

  lemma {:induction false} LiveIsShort(s: Slot)
    requires Live(s)
    ensures s.Short?
  {
  }

  // ----- how a new entry is laid out

  /** FatSetEntryCount: one slot for a plain 8.3 name, two for one of mixed case, else as many as the name fills. */
  function EntryCountFor(col: Collation, name: Name): (r: nat)
    requires NameOk(name)
    ensures 1 <= r <= MAX_LFN_ENTRIES + 1
  {
    if Is8Dot3(col, name) then (if CaseFlags(col, name).None? then 2 else 1) else LfnEntryNumber(|name|) + 1
  }

  /**
   The slots a name takes: one for an 8.3 name with one case per part; for any other the short entry and the
   least number of pieces of 13 characters that holds the name.
   */
  predicate SlotsOfName(col: Collation, name: Name, entryCount: nat) {
    if Is8Dot3(col, name) && CaseFlags(col, name).Some? then entryCount == 1 else entryCount >= 2 && LeastPieces(|name|, entryCount - 1)
  }

  lemma {:induction false} EntryCountIsLeast(col: Collation, name: Name)
    requires NameOk(name)
    ensures SlotsOfName(col, name, EntryCountFor(col, name))
  {
    hide CaseFlags;
    EntryNumberIsLeast(|name|);
  }

  /** The short name and case flag that FatSetEntryCount may choose. */
  ghost predicate ShortChoice(col: Collation, list: seq<DirEnt>, name: Name, short: FatName, flag: byte) {
    && NotAMark(short[0]) && ShortFree(list, short)
    && (Is8Dot3(col, name) ==> short == To8Dot3(col, name))
    && flag == if Is8Dot3(col, name) && CaseFlags(col, name).Some? then CaseFlags(col, name).value else 0
  }

  /** Any such entry reads back as written and keeps names unique. */
  lemma {:induction false} ChoiceIsGood(col: Collation, list: seq<DirEnt>, name: Name, d: DirEnt)
    requires Lawful(col) && NameOk(name) && d.fileString == name && d.entryCount == EntryCountFor(col, name)
    requires ShortChoice(col, list, name, d.entry.fileName, d.entry.caseFlag) && !IsVolumeId(Short(d.entry))
    requires forall e :: e in list ==> !Matches(col, name, e)
    ensures Storable(Via(col), d) && Consistent(col, d)
    ensures forall k :: 0 <= k < |list| ==> Apart(col, d, list[k])
  {
    hide To8Dot3, LastDot, MainPart, ExtPart, EqualLaws, UpperLaws, FatLaws, CaseFlags, ViaCase;
    NoNul(name);
    if !Is8Dot3(col, name) {
      EntryCountFits(d);
    } else {
      assert |MainPart(name)| <= FAT_MAIN_NAME_LEN && |ExtPart(name)| <= FAT_EXTEND_NAME_LEN;
      PartsLength(name);
      if CaseFlags(col, name).Some? { CaseRoundTrip(col, name, d.entry); }
    }
    forall k | 0 <= k < |list| ensures Apart(col, d, list[k]) { assert list[k] in list; }
  }

  lemma {:induction false} PartsLength(name: Name)
    ensures |name| <= |MainPart(name)| + |ExtPart(name)| + 1
  {
  }

  /** Room for `n` more slots from `end` on, counting the one cluster FatExpandODir may add; else first fit is used. */
  predicate RoomFor(end: nat, n: nat, size: nat, perCluster: nat, max: nat) {
    end + n <= size || end + n >= max || end + n <= size + perCluster
  }

  /** With clusters of 512 bytes, a full directory of one cluster has no room for a name of 200 characters. */
  lemma {:induction false} RoomRunsOutExample(col: Collation, name: Name)
    requires NameOk(name) && |name| == 200
    ensures !RoomFor(16, EntryCountFor(col, name), 16, 16, FAT_MAX_DIRENTRY_COUNT)
  {
    PartsLength(name);
  }

  // ----- first fit

  function Before(list: seq<DirEnt>, j: nat): nat
    requires j <= |list|
  {
    if j == 0 then 0 else list[j - 1].entryPos
  }

  /** The gap before child `j` takes `n` slots, and the volume label is not among them. */
  predicate GapOk(list: seq<DirEnt>, labelPos: nat, n: nat, j: nat)
    requires j < |list|
  {
    && Before(list, j) + n + list[j].entryCount <= list[j].entryPos
    && (labelPos > Before(list, j) + n || labelPos <= Before(list, j))
  }

  predicate IsLabel(s: Slot) {
    s.Short? && FirstByte(s) != DELETE_ENTRY_MARK && (s.entry.attributes == FAT_ATTRIBUTE_VOLUME_ID || s.entry.attributes == FAT_ATTRIBUTE_VOLUME_ID + 0x20)
  }

  /** A volume label on the disk: attribute 8, archived or not. */
  lemma {:induction false} LabelOnDisk(s: Slot)
    ensures IsLabel(s) <==> s.Short? && s.entry.attributes in {0x08, 0x28} && s.entry.fileName[0] != 0xE5
  {
  }

  /** First fit finds room only behind the last child, and the label is there. */
  predicate LabelLost(list: seq<DirEnt>, labelPos: nat, n: nat) {
    && (forall j :: 0 <= j < |list| ==> !GapOk(list, labelPos, n, j))
    && Before(list, |list|) < labelPos <= Before(list, |list|) + n
  }

  lemma {:induction false} OnlyFirstListed(col: Collation, slots: seq<Slot>)
    requires slots != [] && Live(slots[0]) && forall p :: 1 <= p < |slots| ==> !Live(slots[p])
    ensures var list := Scan(Via(col), slots, 0, |slots|); |list| == 1 && list[0].entryPos == 0 && list[0].entryCount == 1
  {
    ScanSplit(Via(col), slots, 0, 1, |slots|);
    ScanNone(Via(col), slots, 1, |slots|);
    assert Scan(Via(col), slots, 0, 1) == [Parse(Via(col), slots, 0)] by { assert Scan(Via(col), slots, 0, 0) == []; }
  }

  /** A root directory of four slots: a file, the label, two deleted entries. The next file replaces the label. */
  lemma {:induction false} LabelLostExample(col: Collation, slots: seq<Slot>, d: DirEnt)
    requires |slots| == 4 && Live(slots[0]) && IsLabel(slots[1])
    requires forall p :: 2 <= p < 4 ==> FirstByte(slots[p]) == DELETE_ENTRY_MARK
    requires d.entryPos == 1 && d.entryCount == 1 && Live(Short(d.entry))
    ensures LabelLost(Scan(Via(col), slots, 0, 4), 1, 1) && !IsLabel(Stored(slots, d, false)[1])
  {
    assert forall p :: 1 <= p < |slots| ==> !Live(slots[p]);
    OnlyFirstListed(col, slots);
  }

  /** What first fit chooses is a gap in the sense of Between. */
  lemma {:induction false} GapIsBetween(col: Collation, slots: seq<Slot>, end: nat, d: DirEnt, at: nat)
    requires end <= |slots| && at <= |Scan(Via(col), slots, 0, end)| && 1 <= d.entryCount && d.entryPos < end
    requires var list := Scan(Via(col), slots, 0, end);
             d.entryPos == Before(list, at) + d.entryCount && (at < |list| ==> d.entryPos + list[at].entryCount <= list[at].entryPos)
    ensures Between(Scan(Via(col), slots, 0, end), end, d, at)
  {
    ScanSorted(Via(col), slots, 0, end);
  }

  lemma {:induction false} AppendIsBetween(col: Collation, slots: seq<Slot>, end: nat, d: DirEnt)
    requires end <= |slots| && 1 <= d.entryCount && d.entryPos == end + d.entryCount - 1
    ensures Between(Scan(Via(col), slots, 0, end), end, d, |Scan(Via(col), slots, 0, end)|)
  {
    ScanPositions(col, slots, 0, end);
  }

  // ----- facts the methods use one at a time

  lemma {:induction false} ChildrenBelowEnd(col: Collation, slots: seq<Slot>, end: nat, list: seq<DirEnt>, longHash: seq<seq<DirEnt>>, shortHash: seq<seq<DirEnt>>)
    requires Loaded(col, slots, end, list, longHash, shortHash)
    ensures forall i :: 0 <= i < |list| ==> list[i].entryPos < end
  {
    ScanPositions(col, slots, 0, end);
  }

  lemma {:induction false} LoadedFresh(col: Collation, slots: seq<Slot>, end: nat, list: seq<DirEnt>, longHash: seq<seq<DirEnt>>, shortHash: seq<seq<DirEnt>>, d: DirEnt)
    requires Loaded(col, slots, end, list, longHash, shortHash) && end <= d.entryPos
    ensures d !in list
  {
    NotYetListed(col, slots, end, d);
  }

  lemma {:induction false} LoadedTables(col: Collation, slots: seq<Slot>, end: nat, list: seq<DirEnt>, longHash: seq<seq<DirEnt>>, shortHash: seq<seq<DirEnt>>)
    requires Loaded(col, slots, end, list, longHash, shortHash)
    ensures Indexed(col, true, longHash, list) && Indexed(col, false, shortHash, list)
  {
  }

  lemma {:induction false} AllAtEndOf(col: Collation, slots: seq<Slot>, end: nat, list: seq<DirEnt>, longHash: seq<seq<DirEnt>>, shortHash: seq<seq<DirEnt>>)
    requires Loaded(col, slots, end, list, longHash, shortHash) && AllEnd(slots, end)
    ensures Scan(Via(col), slots, 0, |slots|) == list
    ensures |longHash| == HASH_TABLE_SIZE && |shortHash| == HASH_TABLE_SIZE
  {
    AllAtEnd(col, slots, end);
  }

  lemma {:induction false} PlaceIsBetween(col: Collation, slots: seq<Slot>, end: nat, list: seq<DirEnt>, longHash: seq<seq<DirEnt>>, shortHash: seq<seq<DirEnt>>, d: DirEnt, at: nat)
    requires Loaded(col, slots, end, list, longHash, shortHash) && at <= |list| && 1 <= d.entryCount
    requires d.entryPos < end ==> d.entryPos == Before(list, at) + d.entryCount && (at < |list| ==> d.entryPos + list[at].entryCount <= list[at].entryPos)
    requires d.entryPos >= end ==> d.entryPos == end + d.entryCount - 1 && at == |list|
    ensures Between(list, end, d, at)
  {
    if d.entryPos < end { GapIsBetween(col, slots, end, d, at); } else { AppendIsBetween(col, slots, end, d); }
  }

  lemma {:induction false} NextMultiple(c: nat, k: nat, m: nat)
    requires k * c < m * c
    ensures k * c + c <= m * c
  {
    if m <= k { MulOrder(m, k, c); }
    MulOrder(k + 1, m, c);
    assert (k + 1) * c == k * c + c;
  }

  lemma {:induction false} OneMoreFits(c: nat, a: nat, b: nat)
    requires c > 0 && a % c == 0 && b % c == 0 && a < b
    ensures a + c <= b && (a + c) % c == 0
  {
    var k, m := a / c, b / c;
    assert a == k * c && b == m * c;
    NextMultiple(c, k, m);
    QuotientIsUnique(c, k + 1, 0);
    assert (k + 1) * c == k * c + c;
  }

  lemma {:induction false} DiskSize(col: Collation, slots: seq<Slot>)
    requires DiskOk(col, slots)
    ensures |slots| <= UINT16_LIMIT
  {
  }

  /** The node FatCreateDirEnt fills in; EntryPos is a UINT16. */
  function NewDirEnt(pos: nat, n: nat, name: Name, short: FatName, attributes: byte, caseFlag: byte, info: seq<byte>): (d: DirEnt)
    requires !HasVolumeBit(attributes)
    ensures pos < UINT16_LIMIT ==> d.entryPos == pos
  {
    DirEnt(pos % UINT16_LIMIT, n, name, RawEntry(short, attributes, caseFlag, info))
  }

  /** All that adding an entry relies on. */
  ghost predicate Fitting(col: Collation, slots: seq<Slot>, end: nat, list: seq<DirEnt>, d: DirEnt, at: nat) {
    && Between(list, end, d, at) && d.entryPos < |slots| && d.entryCount <= MAX_LFN_ENTRIES + 1
    && Storable(Via(col), d) && Consistent(col, d) && |d.fileString| <= EFI_FILE_STRING_LENGTH
    && forall k :: 0 <= k < |list| ==> Apart(col, d, list[k])
  }

  lemma {:induction false} NewEntryFits(col: Collation, slots: seq<Slot>, end: nat, list: seq<DirEnt>, longHash: seq<seq<DirEnt>>, shortHash: seq<seq<DirEnt>>, name: Name, d: DirEnt, at: nat)
    requires Lawful(col) && DiskOk(col, slots) && Loaded(col, slots, end, list, longHash, shortHash) && at <= |list|
    requires NameOk(name) && d.fileString == name && d.entryCount == EntryCountFor(col, name) && d.entryPos < |slots|
    requires ShortChoice(col, list, name, d.entry.fileName, d.entry.caseFlag) && !HasVolumeBit(d.entry.attributes)
    requires forall e :: e in list ==> !Matches(col, name, e)
    requires d.entryPos < end ==> d.entryPos == Before(list, at) + d.entryCount && (at < |list| ==> d.entryPos + list[at].entryCount <= list[at].entryPos)
    requires d.entryPos >= end ==> d.entryPos == end + d.entryCount - 1 && at == |list|
    ensures Fitting(col, slots, end, list, d, at)
  {
    hide Lawful, DiskOk, Loaded, ShortChoice, Matches, Storable, Consistent, Apart;
    PlaceIsBetween(col, slots, end, list, longHash, shortHash, d, at);
    ChoiceIsGood(col, list, name, d);
  }

  lemma {:induction false} InsertHas(list: seq<DirEnt>, at: nat, d: DirEnt)
    requires at <= |list|
    ensures forall e :: e in list[..at] + [d] + list[at..] <==> e in list || e == d
  {
    assert list == list[..at] + list[at..];
  }

  lemma {:induction false} OwnNameMatches(col: Collation, d: DirEnt)
    requires Lawful(col)
    ensures Matches(col, d.fileString, d)
  {
  }

  lemma {:induction false} ValidUnique(col: Collation, slots: seq<Slot>)
    requires DiskOk(col, slots)
    ensures Unique(col, Scan(Via(col), slots, 0, |slots|))
  {
  }

  lemma {:induction false} GeneratedIsName(crc: nat, tag: FatName, short: FatName)
    requires NotAMark(tag[0])
    requires (exists c: byte :: short == SpecForm(tag, c)) || exists c: byte :: short == HashForm(crc, tag, c)
    ensures NotAMark(short[0])
  {
    if c: byte :| short == SpecForm(tag, c) { FormsAreNames(crc, tag, c); }
    if c: byte :| short == HashForm(crc, tag, c) { FormsAreNames(crc, tag, c); }
  }

  /** FAT_OFILE of a directory with its FAT_ODIR. */
  class Directory {
    const col: Collation
    const isRoot: bool
    const isFixedRootDir: bool
    const rootEntries: nat
    const clusterEntries: nat           // slots in a cluster
    var slots: seq<Slot>                // the directory file
    var childList: seq<DirEnt>
    var currentEndPos: nat
    var endOfDir: bool
    var longNameHashTable: seq<seq<DirEnt>>
    var shortNameHashTable: seq<seq<DirEnt>>

    ghost predicate Valid()
      reads this
    {
      && Lawful(col) && DiskOk(col, slots)
      && Loaded(col, slots, currentEndPos, childList, longNameHashTable, shortNameHashTable)
      && (endOfDir ==> AllEnd(slots, currentEndPos))
      && SizeOk(slots)
    }

    /** The fixed root directory has a fixed size; any other directory consists of whole clusters. */
    ghost predicate SizeOk(s: seq<Slot>) {
      if isFixedRootDir then |s| == rootEntries
      else clusterEntries > 0 && |s| % clusterEntries == 0 && UINT16_LIMIT % clusterEntries == 0
    }

    /** Every live entry on the disk, as a linear scan lists them. */
    ghost function All(): seq<DirEnt>
      reads this
    {
      Scan(Via(col), slots, 0, |slots|)
    }

    /** FatAllocateODir: nothing loaded yet. */
    constructor (c: Collation, root: bool, fixed: bool, perCluster: nat, image: seq<Slot>)
      requires Lawful(c) && DiskOk(c, image)
      requires !fixed ==> perCluster > 0 && |image| % perCluster == 0 && UINT16_LIMIT % perCluster == 0
      ensures Valid() && childList == [] && !endOfDir && slots == image
    {
      col, isRoot, isFixedRootDir, rootEntries, clusterEntries := c, root, fixed, |image|, perCluster;
      slots, childList, currentEndPos, endOfDir := image, [], 0, false;
      longNameHashTable, shortNameHashTable := seq(HASH_TABLE_SIZE, _ => []), seq(HASH_TABLE_SIZE, _ => []);
    }

    /** FatAccessEntry with READ_DATA: past the end of the file every slot reads as empty. */
    method ReadEntry(pos: nat) returns (s: Slot)
      ensures pos < |slots| ==> s == slots[pos]
      ensures pos >= |slots| ==> IsEnd(s)
    {
      if pos >= |slots| {
        return Short(RawEntry(seq(FAT_NAME_LEN, _ => EMPTY_ENTRY_MARK), 0, 0, []));
      }
      s := slots[pos];
    }

    /** FatLoadLongNameEntry. */
    method LoadLongNameEntry(pos: nat, entry: DirEntry) returns (d: DirEnt)
      requires pos < |slots| && slots[pos] == Short(entry)
      ensures d == Parse(Via(col), slots, pos)
    {
      var sum := CheckSum(entry.fileName);
      var entryPos: nat, ordinal: nat, buffer: seq<Char16> := pos, 1, [];
      while true
        invariant entryPos <= pos && ordinal >= 1
        invariant LoadFrom(slots, entryPos, sum, ordinal, buffer) == LoadFrom(slots, pos, sum, 1, [])
        decreases entryPos
      {
        if entryPos == 0 {
          buffer := [];
          break;
        }
        entryPos := entryPos - 1;
        var s := ReadEntry(entryPos);
        if !Continues(s, sum, ordinal) {
          buffer := [];
          break;
        }
        buffer := buffer + s.chars;
        ordinal := ordinal + 1;
        if IsLast(s.ordinal) {
          break;
        }
      }
      d := DirEnt(pos, ordinal, if buffer == [] then ViaCase(col, entry) else UpToNul(buffer), entry);
    }

    /** FatStoreDirEnt. */
    method StoreDirEnt(d: DirEnt, invalid: bool)
      requires 1 <= d.entryCount <= d.entryPos + 1 && d.entryPos < |slots| && d.entryCount <= MAX_LFN_ENTRIES + 1
      requires |d.fileString| <= LFN_CHAR_TOTAL * MAX_LFN_ENTRIES
      modifies this`slots
      ensures slots == Stored(old(slots), d, invalid)
    {
      slots := slots[d.entryPos := Short(d.entry)];
      var sum := CheckSum(d.entry.fileName);
      var ordinal, entryPos := 1, d.entryPos;
      while ordinal < d.entryCount
        invariant 1 <= ordinal <= d.entryCount && entryPos == d.entryPos - (ordinal - 1)
        invariant |slots| == |old(slots)|
        invariant forall p :: 0 <= p < |slots| ==>
          slots[p] == if p == d.entryPos then Short(d.entry)
                      else if d.entryPos - ordinal < p < d.entryPos then LfnSlot(d, invalid, d.entryPos - p)
                      else old(slots)[p]
      {
        entryPos := entryPos - 1;
        var mark: byte := if invalid then DELETE_ENTRY_MARK else ordinal + if ordinal == d.entryCount - 1 then FAT_LFN_LAST else 0;
        slots := slots[entryPos := Lfn(mark, Piece(d.fileString, ordinal), 0, sum, 0)];
        ordinal := ordinal + 1;
      }
      assert slots == Stored(old(slots), d, invalid);
    }

    /** FatAddDirEnt: the node goes before the `at`-th child and to the head of its two buckets. */
    method AddDirEnt(d: DirEnt, at: nat)
      requires at <= |childList| && d !in childList
      requires Indexed(col, true, longNameHashTable, childList) && Indexed(col, false, shortNameHashTable, childList)
      modifies this`childList, this`longNameHashTable, this`shortNameHashTable
      ensures childList == old(childList)[..at] + [d] + old(childList)[at..]
      ensures Indexed(col, true, longNameHashTable, childList) && Indexed(col, false, shortNameHashTable, childList)
      ensures |old(longNameHashTable)| == |old(shortNameHashTable)| == HASH_TABLE_SIZE
      ensures longNameHashTable == Inserted(col, true, old(longNameHashTable), d)
      ensures shortNameHashTable == Inserted(col, false, old(shortNameHashTable), d)
    {
      hide Indexed;
      ghost var list' := childList[..at] + [d] + childList[at..];
      InsertHas(childList, at, d);
      IndexedSize(col, true, longNameHashTable, childList);
      IndexedSize(col, false, shortNameHashTable, childList);
      InsertedIndexed(col, true, longNameHashTable, childList, d, list');
      InsertedIndexed(col, false, shortNameHashTable, childList, d, list');
      childList := childList[..at] + [d] + childList[at..];
      var h := ShortHash(col, d.entry.fileName);
      shortNameHashTable := shortNameHashTable[h := [d] + shortNameHashTable[h]];
      h := LongHash(col, d.fileString);
      longNameHashTable := longNameHashTable[h := [d] + longNameHashTable[h]];
    }

    /** The last part of FatLoadNextDirEnt: the entry at the current position. */
    method LoadHere(s: Slot) returns (d: DirEnt)
      requires Valid() && !endOfDir && currentEndPos < |slots| && s == slots[currentEndPos] && Live(s)
      modifies this`childList, this`currentEndPos, this`longNameHashTable, this`shortNameHashTable
      ensures Valid() && currentEndPos == old(currentEndPos) + 1 && childList == old(childList) + [d]
    {
      hide Indexed, Unique, Lawful, Live, IsEnd, NoOrphans, FirstByte, IsVolumeId, Loaded;
      SlotKinds(s);
      LoadedEnd(col, slots, currentEndPos, childList, longNameHashTable, shortNameHashTable);
      d := LoadLongNameEntry(currentEndPos % UINT16_LIMIT, s.entry);
      LoadStep(col, slots, currentEndPos, childList, longNameHashTable, shortNameHashTable);
      LoadedTables(col, slots, currentEndPos, childList, longNameHashTable, shortNameHashTable);
      LoadedFresh(col, slots, currentEndPos, childList, longNameHashTable, shortNameHashTable, d);
      assert childList[..|childList|] == childList && childList[|childList|..] == [];
      AddDirEnt(d, |childList|);
      currentEndPos := currentEndPos + 1;
      assert childList == old(childList) + [d];
      assert Loaded(col, slots, currentEndPos, childList, longNameHashTable, shortNameHashTable);
    }

    /** FatLoadNextDirEnt: skip what is not an entry, then load one or find the end. */
    method LoadNextDirEnt() returns (r: Option<DirEnt>)
      requires Valid() && !endOfDir
      modifies this`childList, this`currentEndPos, this`endOfDir, this`longNameHashTable, this`shortNameHashTable
      ensures Valid() && currentEndPos >= old(currentEndPos)
      ensures r.Some? ==> childList == old(childList) + [r.value] && !endOfDir && currentEndPos > old(currentEndPos)
      ensures r.None? ==> childList == old(childList) && endOfDir
    {
      hide Indexed, Unique, Lawful, Live, IsEnd, NoOrphans, FirstByte, IsVolumeId, Loaded;
      var s := ReadEntry(currentEndPos);
      LoadedEnd(col, slots, currentEndPos, childList, longNameHashTable, shortNameHashTable);
      while FirstByte(s) == DELETE_ENTRY_MARK || IsVolumeId(s)
        modifies this`currentEndPos
        invariant old(currentEndPos) <= currentEndPos <= |slots| && !endOfDir
        invariant Loaded(col, slots, currentEndPos, childList, longNameHashTable, shortNameHashTable)
        invariant currentEndPos < |slots| ==> s == slots[currentEndPos]
        invariant currentEndPos >= |slots| ==> IsEnd(s)
        decreases |slots| - currentEndPos
      {
        SlotKinds(s);
        SkipStep(col, slots, currentEndPos, childList, longNameHashTable, shortNameHashTable);
        currentEndPos := currentEndPos + 1;
        s := ReadEntry(currentEndPos);
      }
      SlotKinds(s);
      if FirstByte(s) != EMPTY_ENTRY_MARK {
        var d := LoadHere(s);
        r := Some(d);
      } else {
        CleanAfter(slots, currentEndPos);
        endOfDir := true;
        r := None;
      }
    }

    /** The child list is the part of the scan that has been loaded. */
    lemma {:induction false} ChildrenAreListed()
      requires Valid()
      ensures All() == childList + Scan(Via(col), slots, currentEndPos, |slots|)
      ensures Unique(col, childList) && Unique(col, All()) && Sorted(childList)
      ensures endOfDir ==> All() == childList
    {
      ScanSplit(Via(col), slots, 0, currentEndPos, |slots|);
      assert All() == childList + Scan(Via(col), slots, currentEndPos, |slots|) + [];
      UniquePart(col, childList, Scan(Via(col), slots, currentEndPos, |slots|), []);
      ScanSorted(Via(col), slots, 0, currentEndPos);
      if endOfDir { AllAtEnd(col, slots, currentEndPos); }
    }

    /** The two bucket searches at the start of FatSearchODir. */
    method SearchTables(name: Name) returns (possibleShortName: bool, short: FatName, r: Option<DirEnt>)
      requires Valid()
      ensures possibleShortName == Is8Dot3(col, name) && short == To8Dot3(col, name)
      ensures r.Some? ==> r.value in childList && Matches(col, name, r.value)
      ensures r.None? ==> forall e :: e in childList ==> !Matches(col, name, e)
    {
      hide DiskOk, Lawful, Indexed;
      IndexedSize(col, true, longNameHashTable, childList);
      IndexedSize(col, false, shortNameHashTable, childList);
      possibleShortName, short := CheckIs8Dot3Name(col, name);
      var b, i := LongNameHashSearch(col, longNameHashTable, name);
      if i < |longNameHashTable[b]| {
        IndexedListed(col, true, longNameHashTable, childList, b, longNameHashTable[b][i]);
        return possibleShortName, short, Some(longNameHashTable[b][i]);
      }
      NotInBucket(col, true, longNameHashTable, childList, name, short);
      assert forall e :: e in childList ==> !SameNames(col, true, e, name, short);
      r := None;
      if possibleShortName {
        b, i := ShortNameHashSearch(col, shortNameHashTable, short);
        if i < |shortNameHashTable[b]| {
          IndexedListed(col, false, shortNameHashTable, childList, b, shortNameHashTable[b][i]);
          return possibleShortName, short, Some(shortNameHashTable[b][i]);
        }
        NotInBucket(col, false, shortNameHashTable, childList, name, short);
        assert forall e :: e in childList ==> !SameNames(col, false, e, name, short);
      }
    }

    /** FatSearchODir: two hash tables and lazy loading find what a linear search of the whole disk finds. */
    method SearchODir(name: Name) returns (r: Option<DirEnt>)
      requires Valid()
      modifies this`childList, this`currentEndPos, this`endOfDir, this`longNameHashTable, this`shortNameHashTable
      ensures Valid() && r == LinearSearch(col, All(), name)
      ensures r.Some? ==> r.value in childList
      ensures r.None? ==> endOfDir
    {
      hide DiskOk, Lawful, Loaded, Unique, Matches, Sorted;
      var possibleShortName, short;
      possibleShortName, short, r := SearchTables(name);
      while r.None? && !endOfDir
        invariant Valid()
        invariant r.Some? ==> r.value in childList && Matches(col, name, r.value)
        invariant r.None? ==> forall e :: e in childList ==> !Matches(col, name, e)
        decreases !endOfDir, |slots| - currentEndPos
      {
        LoadedEnd(col, slots, currentEndPos, childList, longNameHashTable, shortNameHashTable);
        var next := LoadNextDirEnt();
        LoadedEnd(col, slots, currentEndPos, childList, longNameHashTable, shortNameHashTable);
        if next.Some? && (col.equal(name, next.value.fileString) || (possibleShortName && short == next.value.entry.fileName)) {
          r := next;
          MatchesMeans(col, name, next.value);
        } else if next.Some? {
          MatchesMeans(col, name, next.value);
        }
      }
      ChildrenAreListed();
      if r.Some? {
        AnyMatchIsFirst(col, All(), name, r.value);
      } else {
        LinearSearchHas(col, All(), name);
      }
    }

    /** FatDeleteFromHashTable: by name, and with unique names that is the node itself. */
    method DeleteFromHashTable(d: DirEnt, ghost list: seq<DirEnt>, ghost rest: seq<DirEnt>)
      requires Lawful(col) && Unique(col, list) && d in list && forall e :: e in rest <==> e in list && e != d
      requires Indexed(col, true, longNameHashTable, list) && Indexed(col, false, shortNameHashTable, list)
      modifies this`longNameHashTable, this`shortNameHashTable
      ensures Indexed(col, true, longNameHashTable, rest) && Indexed(col, false, shortNameHashTable, rest)
    {
      hide Unique, Lawful, Indexed;
      IndexedSize(col, true, longNameHashTable, list);
      IndexedSize(col, false, shortNameHashTable, list);
      var b, i := ShortNameHashSearch(col, shortNameHashTable, d.entry.fileName);
      OwnNode(col, false, shortNameHashTable, list, d, b, i);
      UnlinkedIndexed(col, false, shortNameHashTable, list, b, i, rest);
      shortNameHashTable := shortNameHashTable[b := shortNameHashTable[b][..i] + shortNameHashTable[b][i + 1..]];
      b, i := LongNameHashSearch(col, longNameHashTable, d.fileString);
      OwnNode(col, true, longNameHashTable, list, d, b, i);
      UnlinkedIndexed(col, true, longNameHashTable, list, b, i, rest);
      longNameHashTable := longNameHashTable[b := longNameHashTable[b][..i] + longNameHashTable[b][i + 1..]];
    }

    /** FatRemoveDirEnt: exactly the given entry leaves the list, both tables and the disk. */
    method RemoveDirEnt(at: nat)
      requires Valid() && at < |childList| && |childList[at].fileString| <= LFN_CHAR_TOTAL * MAX_LFN_ENTRIES
      modifies this`childList, this`longNameHashTable, this`shortNameHashTable, this`slots
      ensures Valid() && childList == Without(old(childList), at)
      ensures old(NoOrphans(slots)) ==> NoOrphans(slots)
      ensures forall e :: e in All() <==> e in old(All()) && e != old(childList[at])
      ensures |slots| == |old(slots)|
      ensures forall p :: 0 <= p < |slots| ==> if InRange(old(childList[at]), p) then FirstByte(slots[p]) == DELETE_ENTRY_MARK
                                               else slots[p] == old(slots[p])
    {
      hide DiskOk, Lawful, Indexed, Unique, Live, IsEnd, Parse, Stored, Without, Sorted, InRange, Scan, FirstByte, LoadFrom, NoOrphans;
      ghost var list := childList;
      var d := childList[at];
      ChildrenAreListed();
      ScanHas(Via(col), slots, 0, currentEndPos, d);
      ScanWithout(col, slots, d, currentEndPos, at);
      ScanHas(Via(col), slots, 0, |slots|, d);
      RemoveKeepsDisk(col, slots, d);
      RemoveKeepsEnds(col, slots, d);
      RemovedFromAll(col, slots, d);
      RemovedSlots(col, slots, d);
      WithoutHas(list, at);
      WithoutIs(list, at);
      childList := childList[..at] + childList[at + 1..];
      DeleteFromHashTable(d, list, childList);
      StoreDirEnt(Marked(d), true);
    }

    /** FatSeekVolumeId: the first volume label, unless the end of the directory comes first. */
    method SeekVolumeId() returns (found: bool, pos: nat)
      ensures found ==> pos < |slots| && IsLabel(slots[pos])
      ensures forall p :: 0 <= p < pos && p < |slots| ==> !IsLabel(slots[p]) && FirstByte(slots[p]) != EMPTY_ENTRY_MARK
      ensures !found ==> pos >= |slots| || (FirstByte(slots[pos]) == EMPTY_ENTRY_MARK && !IsLabel(slots[pos]))
    {
      pos := 0;
      while true
        invariant pos <= |slots|
        invariant forall p :: 0 <= p < pos ==> !IsLabel(slots[p]) && FirstByte(slots[p]) != EMPTY_ENTRY_MARK
        decreases |slots| - pos
      {
        var s := ReadEntry(pos);
        if IsLabel(s) && pos < |slots| {
          return true, pos;
        }
        if FirstByte(s) == EMPTY_ENTRY_MARK {
          return false, pos;
        }
        pos := pos + 1;
      }
    }

    /** FatFirstFitInsertDirEnt: the first gap between children that is large enough and spares the label. */
    method FirstFitInsertDirEnt(n: nat) returns (status: Status, pos: nat, at: nat, ghost labelPos: nat)
      requires 1 <= n
      ensures at <= |childList| && pos == Before(childList, at) + n
      ensures forall j :: 0 <= j < at ==> !GapOk(childList, labelPos, n, j)
      ensures status == EFI_SUCCESS ==> if at < |childList| then GapOk(childList, labelPos, n, at) else pos < currentEndPos
      ensures status != EFI_SUCCESS ==> status == EFI_VOLUME_FULL && at == |childList| && pos >= currentEndPos
      ensures status == EFI_SUCCESS ==> (pos - n < labelPos <= pos <==> LabelLost(childList, labelPos, n))
      ensures isRoot && labelPos > 0 ==> labelPos < |slots| && IsLabel(slots[labelPos])
      ensures isRoot ==> (exists p :: 0 < p < |slots| && IsLabel(slots[p]) && forall q :: 0 <= q < p ==> FirstByte(slots[q]) != EMPTY_ENTRY_MARK && !IsLabel(slots[q])) ==> labelPos > 0
    {
      var avoid := 0;
      if isRoot {
        var found, p := SeekVolumeId();
        if found {
          avoid := p;
        }
      }
      labelPos := avoid;
      var currentPos;
      at, currentPos, pos := 0, 0, n;
      while at < |childList|
        invariant at <= |childList| && currentPos == Before(childList, at) && pos == currentPos + n
        invariant forall j :: 0 <= j < at ==> !GapOk(childList, avoid, n, j)
      {
        if pos + childList[at].entryCount <= childList[at].entryPos {
          if avoid > pos || avoid <= currentPos {
            assert GapOk(childList, avoid, n, at);
            return EFI_SUCCESS, pos, at, labelPos;
          }
        }
        currentPos := childList[at].entryPos;
        pos := currentPos + n;
        at := at + 1;
      }
      status := if pos >= currentEndPos then EFI_VOLUME_FULL else EFI_SUCCESS;
    }

    predicate HasRoom(n: nat)
      reads this
    {
      RoomFor(currentEndPos, n, |slots|, clusterEntries, if isFixedRootDir then rootEntries else FAT_MAX_DIRENTRY_COUNT)
    }

    /** The load loop of FatNewEntryPos. */
    method LoadAll()
      requires Valid()
      modifies this`childList, this`currentEndPos, this`endOfDir, this`longNameHashTable, this`shortNameHashTable
      ensures Valid() && endOfDir
      ensures old(endOfDir) ==> childList == old(childList) && currentEndPos == old(currentEndPos)
    {
      hide DiskOk, Lawful, Loaded;
      while !endOfDir
        invariant Valid()
        invariant old(endOfDir) ==> childList == old(childList) && currentEndPos == old(currentEndPos)
        decreases !endOfDir, |slots| - currentEndPos
      {
        LoadedEnd(col, slots, currentEndPos, childList, longNameHashTable, shortNameHashTable);
        var next := LoadNextDirEnt();
        LoadedEnd(col, slots, currentEndPos, childList, longNameHashTable, shortNameHashTable);
      }
    }

    /**
     FatNewEntryPos: append if the file has room or can grow, else first fit. `end` is the end of the
     directory before; CurrentEndPos already counts the slots that are still to be written.
     */
    method NewEntryPos(n: nat, expand: Status) returns (status: Status, pos: nat, at: nat, ghost end: nat)
      requires Valid() && 1 <= n <= MAX_LFN_ENTRIES + 1
      modifies this`slots, this`childList, this`currentEndPos, this`endOfDir, this`longNameHashTable, this`shortNameHashTable
      ensures endOfDir && end <= |slots| && DiskOk(col, slots) && AllEnd(slots, end)
      ensures old(NoOrphans(slots)) ==> NoOrphans(slots)
      ensures Loaded(col, slots, end, childList, longNameHashTable, shortNameHashTable)
      ensures |old(slots)| <= |slots| && slots[..|old(slots)|] == old(slots) && SizeOk(slots)
      ensures old(endOfDir) ==> childList == old(childList) && end == old(currentEndPos)
      ensures at <= |childList| && (status != EFI_SUCCESS ==> currentEndPos == end)
      ensures status == EFI_SUCCESS && pos < end ==>
        && currentEndPos == end && pos == Before(childList, at) + n
        && (at < |childList| ==> pos + childList[at].entryCount <= childList[at].entryPos)
      ensures status == EFI_SUCCESS && pos >= end ==> currentEndPos == pos + 1 && pos == end + n - 1 && at == |childList|
      ensures |slots| <= UINT16_LIMIT && (old(endOfDir) && status == EFI_SUCCESS ==> (pos < |slots| <==> old(HasRoom(n))))
    {
      hide DiskOk, Lawful, Loaded, AllEnd, NoOrphans;
      LoadAll();
      DiskSize(col, slots);
      LoadedEnd(col, slots, currentEndPos, childList, longNameHashTable, shortNameHashTable);
      end := currentEndPos;
      assert slots[..|slots|] == slots;
      var newEndPos := currentEndPos + n;
      if newEndPos > |slots| {
        if newEndPos >= (if isFixedRootDir then rootEntries else FAT_MAX_DIRENTRY_COUNT) {
          ghost var labelPos;
          status, pos, at, labelPos := FirstFitInsertDirEnt(n);
          ChildrenBelowEnd(col, slots, currentEndPos, childList, longNameHashTable, shortNameHashTable);
          return;
        }
        if expand != EFI_SUCCESS {
          return expand, 0, 0, end;
        }
        OneMoreFits(clusterEntries, |slots|, UINT16_LIMIT);
        ExpandKeeps(col, slots, currentEndPos, childList, longNameHashTable, shortNameHashTable, clusterEntries);
        slots := slots + seq(clusterEntries, _ => BlankSlot());
      }
      currentEndPos := newEndPos;
      status, pos, at := EFI_SUCCESS, currentEndPos - 1, |childList|;
    }

    /** FatSetEntryCount for a name other than "." and "..". */
    method SetEntryCount(name: Name, ghost free: byte) returns (entryCount: nat, short: FatName, caseFlag: byte)
      requires Valid() && NameOk(name) && forall e :: e in childList ==> !Matches(col, name, e)
      requires ShortFree(childList, HashForm(col.longCrc(name), To8Dot3(col, name), free))
      ensures entryCount == EntryCountFor(col, name) && SlotsOfName(col, name, entryCount) && ShortChoice(col, childList, name, short, caseFlag)
    {
      hide DiskOk, Loaded, Indexed, Is8Dot3, To8Dot3, Lawful, SpecForm, HashForm, SlotsOfName;
      EntryCountIsLeast(col, name);
      var possibleShortName;
      possibleShortName, short := CheckIs8Dot3Name(col, name);
      ShortFormIsName(col, name);
      LoadedTables(col, slots, currentEndPos, childList, longNameHashTable, shortNameHashTable);
      if possibleShortName {
        var flags := CaseFlags(col, name);
        entryCount, caseFlag := if flags.None? then 2 else 1, if flags.None? then 0 else flags.value;
      } else {
        ghost var tag := short;
        short := Create8Dot3Name(col, shortNameHashTable, childList, name, short, free);
        GeneratedIsName(col.longCrc(name), tag, short);
        entryCount, caseFlag := LfnEntryNumber(|name|) + 1, 0;
      }
    }

    /**
     FatCreateDirEnt after a search in vain: the disk, the list and both tables gain exactly one entry,
     and a search for the name now finds it. `outside` says that the driver goes on to write slots behind the
     end of the directory file; that is so exactly if it finds a position without having room.
     */
    method CreateDirEnt(name: Name, attributes: byte, info: seq<byte>, expand: Status, ghost free: byte) returns (status: Status, r: Option<DirEnt>, outside: bool)
      requires Valid() && NoOrphans(slots) && endOfDir && NameOk(name) && LinearSearch(col, All(), name) == None
      requires ShortFree(childList, HashForm(col.longCrc(name), To8Dot3(col, name), free))
      requires !HasVolumeBit(attributes)
      modifies this`slots, this`childList, this`currentEndPos, this`endOfDir, this`longNameHashTable, this`shortNameHashTable
      ensures outside <==> status == EFI_SUCCESS && !old(HasRoom(EntryCountFor(col, name)))
      ensures !outside ==> Valid() && NoOrphans(slots) && endOfDir && (status == EFI_SUCCESS <==> r.Some?)
      ensures r.None? ==> DiskOk(col, slots) && SizeOk(slots) && All() == old(All())
      ensures r.Some? ==> r.value.fileString == name && r.value.entry.attributes == attributes && r.value.entry.info == info
      ensures r.Some? ==> SlotsOfName(col, name, r.value.entryCount)
      ensures r.Some? ==> forall e :: e in All() <==> e in old(All()) || e == r.value
      ensures r.Some? ==> r.value !in old(All()) && LinearSearch(col, All(), name) == r
    {
      hide DiskOk, Lawful, Loaded, Indexed, AllEnd, Sorted, Storable, Consistent, Apart, Unique, Is8Dot3, To8Dot3, Stored, Matches, HashForm, ShortChoice, Between, SpecForm, Before, NoOrphans;
      AllAtEndOf(col, slots, currentEndPos, childList, longNameHashTable, shortNameHashTable);
      LinearSearchHas(col, childList, name);
      var entryCount, short, caseFlag := SetEntryCount(name, free);
      var pos, at;
      ghost var end;
      status, pos, at, end := NewEntryPos(entryCount, expand);
      AllAtEndOf(col, slots, end, childList, longNameHashTable, shortNameHashTable);
      if status != EFI_SUCCESS {
        return status, None, false;
      }
      if pos >= |slots| {
        return status, None, true;
      }
      var d := NewDirEnt(pos, entryCount, name, short, attributes, caseFlag, info);
      NewEntryFits(col, slots, end, childList, longNameHashTable, shortNameHashTable, name, d, at);
      AddAndStore(d, at, end);
      r, outside := Some(d), false;
    }

    /** The last two steps of FatCreateDirEnt: the node is listed, then its slots are written. */
    method AddAndStore(d: DirEnt, at: nat, ghost end: nat)
      requires Lawful(col) && DiskOk(col, slots) && NoOrphans(slots) && SizeOk(slots) && AllEnd(slots, end) && endOfDir
      requires Loaded(col, slots, end, childList, longNameHashTable, shortNameHashTable)
      requires Fitting(col, slots, end, childList, d, at) && currentEndPos == NewEnd(end, d)
      modifies this`slots, this`childList, this`longNameHashTable, this`shortNameHashTable
      ensures Valid() && NoOrphans(slots) && All() == childList == old(childList)[..at] + [d] + old(childList)[at..]
      ensures forall e :: e in All() <==> e in old(childList) || e == d
      ensures d !in old(childList) && LinearSearch(col, All(), d.fileString) == Some(d)
    {
      hide DiskOk, Lawful, Loaded, AllEnd, Storable, Consistent, Apart, Unique, Stored, Matches, Inserted, NoOrphans, Indexed;
      AllAtEndOf(col, slots, end, childList, longNameHashTable, shortNameHashTable);
      CreateKeeps(col, slots, end, childList, longNameHashTable, shortNameHashTable, d, at);
      NotAmong(col, childList, d);
      InsertHas(childList, at, d);
      LoadedTables(col, slots, end, childList, longNameHashTable, shortNameHashTable);
      AddDirEnt(d, at);
      StoreDirEnt(d, false);
      OwnNameMatches(col, d);
      ValidUnique(col, slots);
      AnyMatchIsFirst(col, All(), d.fileString, d);
    }
  }

  lemma {:induction false} MatchesMeans(col: Collation, name: Name, e: DirEnt)
    ensures Matches(col, name, e) <==> col.equal(name, e.fileString) || (Is8Dot3(col, name) && To8Dot3(col, name) == e.entry.fileName)
  {
  }

  lemma {:induction false} CleanAfter(slots: seq<Slot>, end: nat)
    requires Clean(slots) && (end < |slots| ==> IsEnd(slots[end]))
    ensures AllEnd(slots, end)
  {
  }

  lemma {:induction false} SlotKinds(s: Slot)
    ensures FirstByte(s) == DELETE_ENTRY_MARK || IsVolumeId(s) ==> !Live(s) && !IsEnd(s)
    ensures FirstByte(s) != DELETE_ENTRY_MARK && !IsVolumeId(s) ==>
      s.Short? && (Live(s) <==> FirstByte(s) != EMPTY_ENTRY_MARK) && (IsEnd(s) <==> FirstByte(s) == EMPTY_ENTRY_MARK)
  {
  }
}
