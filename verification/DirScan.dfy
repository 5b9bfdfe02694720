/**
 A directory as a plain linear scan of its slots sees it, and what writing or deleting one entry
 does to that scan. This is the meaning the in-memory directory of DirectoryManage.c has to match.
 */
module DirScan {
  import opened LongName

  /** The entries whose short slot lies in [lo, hi), in order. */
  ghost function Scan(viaCase: DirEntry -> seq<Char16>, slots: seq<Slot>, lo: nat, hi: nat): seq<DirEnt>
    requires lo <= hi <= |slots|
    decreases hi - lo
  {
    if lo == hi then []
    else Scan(viaCase, slots, lo, hi - 1) + if Live(slots[hi - 1]) then [Parse(viaCase, slots, hi - 1)] else []
  }

  /** How many slots the entry at `q` occupies. */
  function Count(slots: seq<Slot>, q: nat): (r: nat)
    requires q < |slots| && slots[q].Short?
    ensures r >= 1
  {
    LoadFrom(slots, q, SumFrom(slots[q].entry.fileName, 0), 1, []).0
  }

  predicate Covers(slots: seq<Slot>, p: nat, q: nat) {
    p < q < |slots| && Live(slots[q]) && q < p + Count(slots, q)
  }

  /** Every long-name slot that is not deleted belongs to an entry. */
  ghost predicate NoOrphans(slots: seq<Slot>) {
    forall p: nat :: p < |slots| && slots[p].Lfn? && slots[p].ordinal != DELETE_ENTRY_MARK ==> exists q: nat :: Covers(slots, p, q)
  }

  /** After the first empty slot every slot is empty, as the FAT specification demands. */
  ghost predicate Clean(slots: seq<Slot>) {
    forall p, q :: 0 <= p < q < |slots| && IsEnd(slots[p]) ==> IsEnd(slots[q])
  }

  // ----- the scan

  lemma {:induction false} ScanSplit(viaCase: DirEntry -> seq<Char16>, slots: seq<Slot>, lo: nat, mid: nat, hi: nat)
    requires lo <= mid <= hi <= |slots|
    ensures Scan(viaCase, slots, lo, hi) == Scan(viaCase, slots, lo, mid) + Scan(viaCase, slots, mid, hi)
    decreases hi
  {
    if mid < hi { ScanSplit(viaCase, slots, lo, mid, hi - 1); }
  }

  lemma {:induction false} ScanNone(viaCase: DirEntry -> seq<Char16>, slots: seq<Slot>, lo: nat, hi: nat)
    requires lo <= hi <= |slots| && forall p :: lo <= p < hi ==> !Live(slots[p])
    ensures Scan(viaCase, slots, lo, hi) == []
    decreases hi
  {
    if lo < hi { ScanNone(viaCase, slots, lo, hi - 1); }
  }

  ghost predicate SameAt(viaCase: DirEntry -> seq<Char16>, slots: seq<Slot>, slots': seq<Slot>, p: nat)
    requires p < |slots| && p < |slots'|
  {
    slots'[p] == slots[p] && (Live(slots[p]) ==> Parse(viaCase, slots', p) == Parse(viaCase, slots, p))
  }

  lemma {:induction false} ScanSame(viaCase: DirEntry -> seq<Char16>, slots: seq<Slot>, slots': seq<Slot>, lo: nat, hi: nat)
    requires lo <= hi <= |slots| && hi <= |slots'|
    requires forall p: nat :: lo <= p < hi ==> SameAt(viaCase, slots, slots', p)
    ensures Scan(viaCase, slots', lo, hi) == Scan(viaCase, slots, lo, hi)
    decreases hi
  {
    if lo < hi {
      ScanSame(viaCase, slots, slots', lo, hi - 1);
      assert SameAt(viaCase, slots, slots', hi - 1);
    }
  }

  /** Which entries the scan lists. */
  lemma {:induction false} ScanHas(viaCase: DirEntry -> seq<Char16>, slots: seq<Slot>, lo: nat, hi: nat, e: DirEnt)
    requires lo <= hi <= |slots|
    ensures e in Scan(viaCase, slots, lo, hi)
            <==> lo <= e.entryPos < hi && Live(slots[e.entryPos]) && e == Parse(viaCase, slots, e.entryPos)
    decreases hi
  {
    if lo < hi { ScanHas(viaCase, slots, lo, hi - 1, e); }
  }

  /** Entries in the order of their positions, and no slot belongs to two of them. */
  ghost predicate Sorted(list: seq<DirEnt>) {
    && (forall i :: 0 <= i < |list| ==> 1 <= list[i].entryCount <= list[i].entryPos + 1)
    && forall i, j :: 0 <= i < j < |list| ==> list[i].entryPos + list[j].entryCount <= list[j].entryPos
  }

  lemma {:induction false} ScanSorted(viaCase: DirEntry -> seq<Char16>, slots: seq<Slot>, lo: nat, hi: nat)
    requires lo <= hi <= |slots|
    ensures Sorted(Scan(viaCase, slots, lo, hi))
    decreases hi
  {
    if lo < hi {
      ScanSorted(viaCase, slots, lo, hi - 1);
      var before := Scan(viaCase, slots, lo, hi - 1);
      if Live(slots[hi - 1]) {
        LoadRange(slots, hi - 1, SumFrom(slots[hi - 1].entry.fileName, 0), 1, []);
        forall i | 0 <= i < |before| ensures before[i].entryPos + Count(slots, hi - 1) <= hi - 1 {
          ScanHas(viaCase, slots, lo, hi - 1, before[i]);
        }
      }
    }
  }

  /** No entry's range reaches down to another entry's short slot. */
  lemma {:induction false} CountStopsAbove(slots: seq<Slot>, p: nat, q: nat)
    requires p < q < |slots| && slots[p].Short? && slots[q].Short?
    ensures p + Count(slots, q) <= q
  {
    LoadRange(slots, q, SumFrom(slots[q].entry.fileName, 0), 1, []);
  }

  // ----- writing

  /** What FatStoreDirEnt needs to know about a slot range that is to hold a new entry. */
  ghost predicate Vacant(slots: seq<Slot>, d: DirEnt) {
    && 1 <= d.entryCount <= d.entryPos + 1 && d.entryPos < |slots| && d.entryCount <= MAX_LFN_ENTRIES + 1
    && (forall p :: 0 <= p < |slots| && InRange(d, p) ==> !Live(slots[p]))
    && forall q: nat :: d.entryPos < q < |slots| && Live(slots[q]) ==> d.entryPos + Count(slots, q) <= q
  }

  /** An entry that reads back as written: a long name, or a short name its case flags describe. */
  predicate Storable(viaCase: DirEntry -> seq<Char16>, d: DirEnt) {
    && Live(Short(d.entry))
    && (LongNameFits(d) || (d.entryCount == 1 && d.fileString == viaCase(d.entry)))
  }

  /** Entries above the written range keep their names. */
  lemma {:induction false} ParseAbove(viaCase: DirEntry -> seq<Char16>, slots: seq<Slot>, slots': seq<Slot>, at: nat, q: nat)
    requires |slots'| == |slots| && at < q < |slots| && slots[q].Short? && slots'[at].Short?
    requires forall p :: at < p < |slots| ==> slots'[p] == slots[p]
    requires at + Count(slots, q) <= q
    ensures slots'[q] == slots[q] && Parse(viaCase, slots', q) == Parse(viaCase, slots, q)
  {
    LoadAbove(slots, slots', q, SumFrom(slots[q].entry.fileName, 0), 1, [], at);
  }

  lemma {:induction false} ParseBelow(viaCase: DirEntry -> seq<Char16>, slots: seq<Slot>, slots': seq<Slot>, q: nat)
    requires q < |slots| && q < |slots'| && slots[q].Short?
    requires forall p :: 0 <= p <= q ==> slots'[p] == slots[p]
    ensures Parse(viaCase, slots', q) == Parse(viaCase, slots, q)
  {
    LoadBelow(slots, slots', q, SumFrom(slots[q].entry.fileName, 0), 1, []);
  }

  /** A new entry in a vacant range reads back as written. */
  lemma {:induction false} WrittenReadsBack(viaCase: DirEntry -> seq<Char16>, slots: seq<Slot>, d: DirEnt)
    requires Vacant(slots, d) && Storable(viaCase, d) && NoOrphans(slots)
    ensures Parse(viaCase, Stored(slots, d, false), d.entryPos) == d
  {
    if LongNameFits(d) {
      LongNameRoundTrip(viaCase, slots, d);
    } else {
      assert InRange(d, d.entryPos);
      assert d.entryPos > 0 ==> !Covers(slots, d.entryPos - 1, d.entryPos);
      assert d.entryPos > 0 && slots[d.entryPos - 1].Lfn? ==> slots[d.entryPos - 1].ordinal == DELETE_ENTRY_MARK;
      ShortNameRoundTrip(viaCase, slots, d);
    }
  }

  /** One write splits the scan around the written range. */
  lemma {:induction false} ScanAround(viaCase: DirEntry -> seq<Char16>, slots: seq<Slot>, slots': seq<Slot>, d: DirEnt, hi: nat)
    requires 1 <= d.entryCount <= d.entryPos + 1 && d.entryPos < hi <= |slots| == |slots'|
    requires forall p :: 0 <= p < |slots| && !InRange(d, p) ==> slots'[p] == slots[p]
    requires slots'[d.entryPos].Short?
    requires forall p :: 0 <= p < d.entryPos && InRange(d, p) ==> !Live(slots'[p])
    requires forall q: nat :: d.entryPos < q < |slots| && Live(slots[q]) ==> d.entryPos + Count(slots, q) <= q
    ensures Scan(viaCase, slots', 0, hi)
            == Scan(viaCase, slots, 0, d.entryPos + 1 - d.entryCount)
               + (if Live(slots'[d.entryPos]) then [Parse(viaCase, slots', d.entryPos)] else [])
               + Scan(viaCase, slots, d.entryPos + 1, hi)
  {
    hide LoadFrom, Parse, Live, Count, InRange;
    var lo := d.entryPos + 1 - d.entryCount;
    ScanSplit(viaCase, slots', 0, lo, hi);
    ScanSplit(viaCase, slots', lo, d.entryPos, hi);
    ScanSplit(viaCase, slots', d.entryPos, d.entryPos + 1, hi);
    RangeIs(d);
    ScanNone(viaCase, slots', lo, d.entryPos);
    ScanBelow(viaCase, slots, slots', lo);
    ScanAbove(viaCase, slots, slots', d.entryPos, hi);
    assert Scan(viaCase, slots', d.entryPos, d.entryPos + 1) == if Live(slots'[d.entryPos]) then [Parse(viaCase, slots', d.entryPos)] else [] by {
      assert Scan(viaCase, slots', d.entryPos, d.entryPos) == [];
    }
  }

  lemma {:induction false} RangeIs(d: DirEnt)
    requires d.entryCount <= d.entryPos + 1
    ensures forall p: nat :: InRange(d, p) <==> d.entryPos + 1 - d.entryCount <= p <= d.entryPos
  {
  }

  lemma {:induction false} ScanBelow(viaCase: DirEntry -> seq<Char16>, slots: seq<Slot>, slots': seq<Slot>, lo: nat)
    requires lo <= |slots| == |slots'| && forall p :: 0 <= p < lo ==> slots'[p] == slots[p]
    ensures Scan(viaCase, slots', 0, lo) == Scan(viaCase, slots, 0, lo)
  {
    forall p: nat | p < lo ensures SameAt(viaCase, slots, slots', p) {
      if Live(slots[p]) { ParseBelow(viaCase, slots, slots', p); }
    }
    ScanSame(viaCase, slots, slots', 0, lo);
  }

  lemma {:induction false} ScanAbove(viaCase: DirEntry -> seq<Char16>, slots: seq<Slot>, slots': seq<Slot>, at: nat, hi: nat)
    requires at < hi <= |slots| == |slots'| && slots'[at].Short?
    requires forall p :: at < p < |slots| ==> slots'[p] == slots[p]
    requires forall q: nat :: at < q < |slots| && Live(slots[q]) ==> at + Count(slots, q) <= q
    ensures Scan(viaCase, slots', at + 1, hi) == Scan(viaCase, slots, at + 1, hi)
  {
    forall p: nat | at + 1 <= p < hi ensures SameAt(viaCase, slots, slots', p) {
      if Live(slots[p]) { ParseAbove(viaCase, slots, slots', at, p); }
    }
    ScanSame(viaCase, slots, slots', at + 1, hi);
  }

  /** FatCreateDirEnt on the disk: the scan gains exactly the new entry, at its place. */
  lemma {:induction false} WriteAddsToScan(viaCase: DirEntry -> seq<Char16>, slots: seq<Slot>, d: DirEnt, hi: nat)
    requires Vacant(slots, d) && Storable(viaCase, d) && NoOrphans(slots) && d.entryPos < hi <= |slots|
    ensures Scan(viaCase, Stored(slots, d, false), 0, hi)
            == Scan(viaCase, slots, 0, d.entryPos + 1 - d.entryCount) + [d] + Scan(viaCase, slots, d.entryPos + 1, hi)
    ensures Scan(viaCase, slots, 0, hi)
            == Scan(viaCase, slots, 0, d.entryPos + 1 - d.entryCount) + Scan(viaCase, slots, d.entryPos + 1, hi)
  {
    hide LoadFrom, IsVolumeId, Parse, Scan, NoOrphans;
    var slots', lo := Stored(slots, d, false), d.entryPos + 1 - d.entryCount;
    WrittenReadsBack(viaCase, slots, d);
    ScanAround(viaCase, slots, slots', d, hi);
    ScanSplit(viaCase, slots, 0, lo, hi);
    ScanSplit(viaCase, slots, lo, d.entryPos + 1, hi);
    ScanNone(viaCase, slots, lo, d.entryPos + 1);
  }

  lemma {:induction false} WriteKeepsNoOrphans(viaCase: DirEntry -> seq<Char16>, slots: seq<Slot>, d: DirEnt)
    requires Vacant(slots, d) && Storable(viaCase, d) && NoOrphans(slots)
    ensures NoOrphans(Stored(slots, d, false))
  {
    hide LoadFrom, IsVolumeId;
    var slots' := Stored(slots, d, false);
    WrittenReadsBack(viaCase, slots, d);
    assert Count(slots', d.entryPos) == Parse(viaCase, slots', d.entryPos).entryCount;
    forall p: nat | p < |slots'| && slots'[p].Lfn? && slots'[p].ordinal != DELETE_ENTRY_MARK ensures exists q: nat :: Covers(slots', p, q) {
      if InRange(d, p) {
        assert Covers(slots', p, d.entryPos);
      } else {
        StillCovered(viaCase, slots, slots', d, p);
      }
    }
  }

  lemma {:induction false} StillCovered(viaCase: DirEntry -> seq<Char16>, slots: seq<Slot>, slots': seq<Slot>, d: DirEnt, p: nat)
    requires NoOrphans(slots) && |slots'| == |slots| && d.entryPos < |slots| && 1 <= d.entryCount <= d.entryPos + 1
    requires forall i :: 0 <= i < |slots| && !InRange(d, i) ==> slots'[i] == slots[i]
    requires slots'[d.entryPos].Short?
    requires forall i :: 0 <= i < |slots| && InRange(d, i) && i != d.entryPos ==> !Live(slots[i])
    requires Live(slots[d.entryPos]) ==> Count(slots, d.entryPos) <= d.entryCount
    requires forall q: nat :: d.entryPos < q < |slots| && Live(slots[q]) ==> d.entryPos + Count(slots, q) <= q
    requires p < |slots| && !InRange(d, p) && slots[p].Lfn? && slots[p].ordinal != DELETE_ENTRY_MARK
    ensures exists q: nat :: Covers(slots', p, q)
  {
    hide LoadFrom, IsVolumeId;
    var q: nat :| Covers(slots, p, q);
    assert q == d.entryPos ==> q < p + d.entryCount;
    if q < d.entryPos {
      assert !InRange(d, q);
      ParseBelow(viaCase, slots, slots', q);
      assert Count(slots', q) == Count(slots, q);
      assert Covers(slots', p, q);
    } else {
      ParseAbove(viaCase, slots, slots', d.entryPos, q);
      assert Count(slots', q) == Count(slots, q);
      assert Covers(slots', p, q);
    }
  }

  // ----- deleting

  /** The entry as FatRemoveDirEnt writes it back. */
  function Marked(d: DirEnt): DirEnt {
    d.(entry := d.entry.(fileName := d.entry.fileName[0 := DELETE_ENTRY_MARK]))
  }

  /** FatRemoveDirEnt on the disk: the scan loses exactly that entry, and its slots are all marked deleted. */
  lemma {:induction false} RemoveFromScan(viaCase: DirEntry -> seq<Char16>, slots: seq<Slot>, d: DirEnt, hi: nat)
    requires d.entryPos < hi <= |slots| && Live(slots[d.entryPos]) && Parse(viaCase, slots, d.entryPos) == d
    ensures 1 <= d.entryCount <= d.entryPos + 1 && d.entryCount <= MAX_LFN_ENTRIES + 1
    ensures Scan(viaCase, Stored(slots, Marked(d), true), 0, hi)
            == Scan(viaCase, slots, 0, d.entryPos + 1 - d.entryCount) + Scan(viaCase, slots, d.entryPos + 1, hi)
    ensures Scan(viaCase, slots, 0, hi)
            == Scan(viaCase, slots, 0, d.entryPos + 1 - d.entryCount) + [d] + Scan(viaCase, slots, d.entryPos + 1, hi)
  {
    EntryOwnsItsSlots(viaCase, slots, d);
    hide LoadFrom, IsVolumeId, Parse, Scan, InRange;
    var slots', lo := Stored(slots, Marked(d), true), d.entryPos + 1 - d.entryCount;
    ScanAround(viaCase, slots, slots', Marked(d), hi);
    ScanAround(viaCase, slots, slots, d, hi);
  }

  /** The slots of a listed entry are long-name slots up to its short slot, and no other entry's. */
  lemma {:induction false} EntryOwnsItsSlots(viaCase: DirEntry -> seq<Char16>, slots: seq<Slot>, d: DirEnt)
    requires d.entryPos < |slots| && Live(slots[d.entryPos]) && Parse(viaCase, slots, d.entryPos) == d
    ensures 1 <= d.entryCount <= d.entryPos + 1 && d.entryCount <= MAX_LFN_ENTRIES + 1
    ensures forall p :: 0 <= p < d.entryPos && InRange(d, p) ==> slots[p].Lfn?
    ensures forall p :: 0 <= p < |slots| ==> InRange(Marked(d), p) == InRange(d, p)
    ensures !Live(Short(Marked(d).entry))
    ensures forall q: nat :: d.entryPos < q < |slots| && Live(slots[q]) ==> d.entryPos + Count(slots, q) <= q
  {
    LoadRange(slots, d.entryPos, SumFrom(d.entry.fileName, 0), 1, []);
    LoadBound(slots, d.entryPos, SumFrom(d.entry.fileName, 0), 1, []);
    forall q: nat | d.entryPos < q < |slots| && Live(slots[q]) ensures d.entryPos + Count(slots, q) <= q {
      CountStopsAbove(slots, d.entryPos, q);
    }
  }

  lemma {:induction false} RemoveKeepsNoOrphans(viaCase: DirEntry -> seq<Char16>, slots: seq<Slot>, d: DirEnt)
    requires NoOrphans(slots) && d.entryPos < |slots| && Live(slots[d.entryPos]) && Parse(viaCase, slots, d.entryPos) == d
    ensures 1 <= d.entryCount <= d.entryPos + 1 && d.entryCount <= MAX_LFN_ENTRIES + 1
    ensures NoOrphans(Stored(slots, Marked(d), true))
  {
    EntryOwnsItsSlots(viaCase, slots, d);
    assert Count(slots, d.entryPos) == d.entryCount;
    hide LoadFrom, IsVolumeId, Parse;
    var slots' := Stored(slots, Marked(d), true);
    forall p: nat | p < |slots'| && slots'[p].Lfn? && slots'[p].ordinal != DELETE_ENTRY_MARK ensures exists q: nat :: Covers(slots', p, q) {
      assert !InRange(d, p);
      StillCovered(viaCase, slots, slots', d, p);
    }
  }
}
