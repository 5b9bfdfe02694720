/**
 The value-level theory of one direct-mapped write-back page cache: which bytes the cache and
 the disk region behind it stand for together, and why each cache step keeps or changes them.
 Offsets are relative to the start of the cached region (DISK_CACHE.BaseAddress).
 */
module PageCache {
  import opened Bytes

  /** CACHE_TAG: `realSize == 0` marks an unused group. */
  datatype CacheTag = CacheTag(pageNo: nat, realSize: nat, dirty: bool)

  /** Offset of page `p` (PageNo << PageAlignment), by addition so that proofs stay linear. */
  function PagePos(ps: nat, p: nat): nat
    decreases p
  {
    if p == 0 then 0 else PagePos(ps, p - 1) + ps
  }

  /** The bytes of page `p` that lie inside a region of `size` bytes. */
  function PageLen(size: nat, ps: nat, p: nat): nat
    requires PagePos(ps, p) <= size
  {
    if ps <= size - PagePos(ps, p) then ps else size - PagePos(ps, p)
  }

  function PageOf(s: seq<byte>, ps: nat, p: nat): (r: seq<byte>)
    requires PagePos(ps, p) <= |s|
  {
    s[PagePos(ps, p)..PagePos(ps, p) + PageLen(|s|, ps, p)]
  }

  /** pos >> PageAlignment and pos & (PageSize - 1), by subtraction for the same reason. */
  function PageNumber(ps: nat, pos: nat): nat
    requires ps > 0
  {
    if pos < ps then 0 else PageNumber(ps, pos - ps) + 1
  }

  function PageOffset(ps: nat, pos: nat): (r: nat)
    requires ps > 0
    ensures r < ps
  {
    if pos < ps then pos else PageOffset(ps, pos - ps)
  }

  /** Page number masked to a group number (PageNo & GroupMask). */
  function Group(p: nat, gc: nat): (g: nat)
    requires gc > 0
    ensures g < gc
  {
    p % gc
  }

  /** Pages closer together than the number of groups do not compete. */
  lemma {:induction false} GroupsApart(p: nat, q: nat, gc: nat)
    requires p < q < p + gc
    ensures Group(p, gc) != Group(q, gc)
  {
    var a, r, n := p / gc, p % gc, q - p;
    assert p == a * gc + r;
    if r + n < gc {
      QuotientIsUnique(gc, a, r + n);
    } else {
      assert q == (a + 1) * gc + (r + n - gc);
      QuotientIsUnique(gc, a + 1, r + n - gc);
    }
  }

  /** A cache hit: FatGetCachePage's first test. */
  predicate Hit(tags: seq<CacheTag>, p: nat)
    requires |tags| > 0
  {
    var t := tags[Group(p, |tags|)];
    t.realSize > 0 && t.pageNo == p
  }

  ghost predicate TagOk(t: CacheTag, g: nat, gc: nat, ps: nat, size: nat)
    requires gc > 0
  {
    t.realSize > 0 ==>
      Group(t.pageNo, gc) == g && PagePos(ps, t.pageNo) < size && t.realSize == PageLen(size, ps, t.pageNo)
  }

  /** Sizes agree and every used tag names a page that belongs to its group and to the region. */
  ghost predicate Shaped(tags: seq<CacheTag>, pages: seq<seq<byte>>, ps: nat, region: seq<byte>)
  {
    && ps > 0 && |tags| > 0 && |pages| == |tags|
    && forall g :: 0 <= g < |tags| ==> |pages[g]| == ps && TagOk(tags[g], g, |tags|, ps, |region|)
  }

  /** Group `g`, if used, holds the current bytes of its page, and a clean page equals the disk. */
  ghost predicate GroupOk(tags: seq<CacheTag>, pages: seq<seq<byte>>, ps: nat, region: seq<byte>, content: seq<byte>, g: nat)
    requires Shaped(tags, pages, ps, region) && g < |tags| && |content| == |region|
  {
    tags[g].realSize > 0 ==>
      && PageOf(content, ps, tags[g].pageNo) == pages[g][..tags[g].realSize]
      && (!tags[g].dirty ==> PageOf(region, ps, tags[g].pageNo) == pages[g][..tags[g].realSize])
  }

  /** `content` is the flat byte array that the cache and the disk region represent together. */
  ghost predicate Coherent(tags: seq<CacheTag>, pages: seq<seq<byte>>, ps: nat, region: seq<byte>, content: seq<byte>)
  {
    && Shaped(tags, pages, ps, region)
    && |content| == |region|
    && (forall g :: 0 <= g < |tags| ==> GroupOk(tags, pages, ps, region, content, g))
    && (forall p: nat {:trigger PageOf(content, ps, p)} :: PagePos(ps, p) < |region| && !Hit(tags, p) ==> PageOf(content, ps, p) == PageOf(region, ps, p))
  }

  // ----- page arithmetic

  lemma {:induction false} PagePosNext(ps: nat, p: nat)
    ensures PagePos(ps, 0) == 0 && PagePos(ps, p + 1) == PagePos(ps, p) + ps
    ensures p > 0 ==> PagePos(ps, p) == PagePos(ps, p - 1) + ps
  {
  }

  lemma {:induction false} PageOrder(ps: nat, p: nat, q: nat)
    requires p < q
    ensures PagePos(ps, p) + ps <= PagePos(ps, q)
    decreases q
  {
    if p + 1 < q { PageOrder(ps, p, q - 1); }
  }

  lemma {:induction false} PageSum(ps: nat, p: nat, n: nat)
    ensures PagePos(ps, p + n) == PagePos(ps, p) + PagePos(ps, n)
    decreases n
  {
    if n > 0 { PageSum(ps, p, n - 1); }
  }

  /** PagePos is the shift: the position splits into a page number and an offset in the page. */
  lemma {:induction false} PagePosIsProduct(ps: nat, p: nat)
    ensures PagePos(ps, p) == p * ps
    decreases p
  {
    if p > 0 {
      PagePosIsProduct(ps, p - 1);
      assert p * ps == (p - 1) * ps + ps;
    }
  }

  lemma {:induction false} PageNumberIsQuotient(ps: nat, pos: nat)
    requires ps > 0
    ensures PageNumber(ps, pos) == pos / ps && PageOffset(ps, pos) == pos % ps
  {
    SplitPosition(ps, pos);
    PagePosIsProduct(ps, PageNumber(ps, pos));
    QuotientIsUnique(ps, PageNumber(ps, pos), PageOffset(ps, pos));
  }

  lemma {:induction false} SplitPosition(ps: nat, pos: nat)
    requires ps > 0
    ensures pos == PagePos(ps, PageNumber(ps, pos)) + PageOffset(ps, pos)
  {
    if pos >= ps { SplitPosition(ps, pos - ps); }
  }

  /** Writing inside page `q` does not touch page `p`. */
  lemma {:induction false} OtherPage(s: seq<byte>, ps: nat, q: nat, off: nat, data: seq<byte>, p: nat)
    requires p != q && PagePos(ps, p) <= |s|
    requires off + |data| <= ps && PagePos(ps, q) + off + |data| <= |s|
    ensures PageOf(Splice(s, PagePos(ps, q) + off, data), ps, p) == PageOf(s, ps, p)
  {
    if p < q { PageOrder(ps, p, q); } else { PageOrder(ps, q, p); }
    SpliceElsewhere(s, PagePos(ps, q) + off, data, PagePos(ps, p), PagePos(ps, p) + PageLen(|s|, ps, p));
  }

  lemma {:induction false} SamePage(s: seq<byte>, ps: nat, q: nat, off: nat, data: seq<byte>)
    requires PagePos(ps, q) <= |s| && off + |data| <= PageLen(|s|, ps, q)
    ensures PageOf(Splice(s, PagePos(ps, q) + off, data), ps, q) == Splice(PageOf(s, ps, q), off, data)
  {
    SpliceWindow(s, PagePos(ps, q) + off, data, PagePos(ps, q), PagePos(ps, q) + PageLen(|s|, ps, q));
  }

  /** Byte sequences that agree on every page are equal. */
  lemma {:induction false} PagesDetermine(a: seq<byte>, b: seq<byte>, ps: nat)
    requires ps > 0 && |a| == |b|
    requires forall p: nat {:trigger PageOf(a, ps, p)} :: PagePos(ps, p) < |a| ==> PageOf(a, ps, p) == PageOf(b, ps, p)
    ensures a == b
  {
    forall i | 0 <= i < |a| ensures a[i] == b[i] {
      var p, k := PageNumber(ps, i), PageOffset(ps, i);
      SplitPosition(ps, i);
      assert k < PageLen(|a|, ps, p);
      assert a[i] == PageOf(a, ps, p)[k];
      assert b[i] == PageOf(b, ps, p)[k];
    }
  }

  // ----- cache steps

  /** FatExchangeCachePage with WRITE_DISK: the disk catches up, the represented bytes stay. */
  lemma {:induction false} WriteBack(tags: seq<CacheTag>, pages: seq<seq<byte>>, ps: nat, region: seq<byte>, content: seq<byte>, g: nat)
    requires Coherent(tags, pages, ps, region, content)
    requires g < |tags| && tags[g].realSize > 0
    ensures PagePos(ps, tags[g].pageNo) + tags[g].realSize <= |region|
    ensures Coherent(tags[g := tags[g].(dirty := false)], pages, ps,
                     Splice(region, PagePos(ps, tags[g].pageNo), pages[g][..tags[g].realSize]), content)
  {
    assert TagOk(tags[g], g, |tags|, ps, |region|);
    var q, data := tags[g].pageNo, pages[g][..tags[g].realSize];
    var region', tags' := Splice(region, PagePos(ps, q), data), tags[g := tags[g].(dirty := false)];
    assert PageOf(region', ps, q) == data by {
      SamePage(region, ps, q, 0, data);
      SpliceWhole(PageOf(region, ps, q), data);
    }
    assert GroupOk(tags, pages, ps, region, content, g) && GroupOk(tags', pages, ps, region', content, g);
    forall h | 0 <= h < |tags'| && h != g ensures GroupOk(tags', pages, ps, region', content, h) {
      assert TagOk(tags[h], h, |tags|, ps, |region|) && GroupOk(tags, pages, ps, region, content, h);
      if tags[h].realSize > 0 { OtherPage(region, ps, q, 0, data, tags[h].pageNo); }
    }
    forall p: nat | PagePos(ps, p) < |region'| && !Hit(tags', p)
      ensures PageOf(content, ps, p) == PageOf(region', ps, p)
    {
      assert !Hit(tags, p);
      OtherPage(region, ps, q, 0, data, p);
    }
  }

  /** FatExchangeCachePage with READ_DISK into a group that holds nothing unsaved. */
  lemma {:induction false} Load(tags: seq<CacheTag>, pages: seq<seq<byte>>, ps: nat, region: seq<byte>, content: seq<byte>, q: nat)
    requires Coherent(tags, pages, ps, region, content)
    requires PagePos(ps, q) < |region| && !Hit(tags, q)
    requires var t := tags[Group(q, |tags|)]; t.realSize > 0 ==> !t.dirty
    ensures var g := Group(q, |tags|);
            Coherent(tags[g := CacheTag(q, PageLen(|region|, ps, q), false)],
                     pages[g := Splice(pages[g], 0, PageOf(region, ps, q))], ps, region, content)
  {
    var g := Group(q, |tags|);
    var tags' := tags[g := CacheTag(q, PageLen(|region|, ps, q), false)];
    var pages' := pages[g := Splice(pages[g], 0, PageOf(region, ps, q))];
    forall h | 0 <= h < |tags'|
      ensures |pages'[h]| == ps && TagOk(tags'[h], h, |tags'|, ps, |region|)
    {
      assert |pages[h]| == ps && TagOk(tags[h], h, |tags|, ps, |region|);
    }
    forall h | 0 <= h < |tags'| ensures GroupOk(tags', pages', ps, region, content, h) {
      assert GroupOk(tags, pages, ps, region, content, h);
    }
    forall p: nat | PagePos(ps, p) < |region| && !Hit(tags', p)
      ensures PageOf(content, ps, p) == PageOf(region, ps, p)
    {
      if Hit(tags, p) {
        assert GroupOk(tags, pages, ps, region, content, Group(p, |tags|));
      }
    }
  }

  /** A hit page reads as the represented bytes. */
  lemma {:induction false} ReadHit(tags: seq<CacheTag>, pages: seq<seq<byte>>, ps: nat, region: seq<byte>, content: seq<byte>, q: nat, off: nat, n: nat)
    requires Coherent(tags, pages, ps, region, content)
    requires PagePos(ps, q) < |region| && Hit(tags, q) && off + n <= PageLen(|region|, ps, q)
    ensures pages[Group(q, |tags|)][off..off + n] == content[PagePos(ps, q) + off..PagePos(ps, q) + off + n]
  {
    var g := Group(q, |tags|);
    assert TagOk(tags[g], g, |tags|, ps, |region|) && GroupOk(tags, pages, ps, region, content, g);
    SliceOfSlice(pages[g], 0, tags[g].realSize, off, n);
    SliceOfSlice(content, PagePos(ps, q), PagePos(ps, q) + PageLen(|region|, ps, q), off, n);
  }

  /** Writing into a hit page and marking it dirty is a write to the represented bytes. */
  lemma {:induction false} WriteHit(tags: seq<CacheTag>, pages: seq<seq<byte>>, ps: nat, region: seq<byte>, content: seq<byte>, q: nat, off: nat, data: seq<byte>)
    requires Coherent(tags, pages, ps, region, content)
    requires PagePos(ps, q) < |region| && Hit(tags, q) && off + |data| <= PageLen(|region|, ps, q)
    ensures var g := Group(q, |tags|);
            Coherent(tags[g := tags[g].(dirty := true)], pages[g := Splice(pages[g], off, data)], ps, region,
                     Splice(content, PagePos(ps, q) + off, data))
  {
    var g := Group(q, |tags|);
    assert TagOk(tags[g], g, |tags|, ps, |region|) && GroupOk(tags, pages, ps, region, content, g);
    var tags', pages' := tags[g := tags[g].(dirty := true)], pages[g := Splice(pages[g], off, data)];
    var content' := Splice(content, PagePos(ps, q) + off, data);
    SamePage(content, ps, q, off, data);
    SpliceWindow(pages[g], off, data, 0, tags[g].realSize);
    assert GroupOk(tags', pages', ps, region, content', g);
    forall h | 0 <= h < |tags'| && h != g ensures GroupOk(tags', pages', ps, region, content', h) {
      assert TagOk(tags[h], h, |tags|, ps, |region|) && GroupOk(tags, pages, ps, region, content, h);
      if tags[h].realSize > 0 { OtherPage(content, ps, q, off, data, tags[h].pageNo); }
    }
    forall p: nat | PagePos(ps, p) < |region| && !Hit(tags', p)
      ensures PageOf(content', ps, p) == PageOf(region, ps, p)
    {
      assert !Hit(tags, p);
      OtherPage(content, ps, q, off, data, p);
    }
  }

  /** The tags after FatFlushDataCacheRange has run for a write over pages [lo, hi). */
  function Invalidated(tags: seq<CacheTag>, lo: nat, hi: nat): (r: seq<CacheTag>)
    ensures |r| == |tags|
  {
    seq(|tags|, g requires 0 <= g < |tags| =>
      if tags[g].realSize > 0 && lo <= tags[g].pageNo < hi then tags[g].(realSize := 0) else tags[g])
  }

  lemma {:induction false} RunApart(ps: nat, lo: nat, n: nat, p: nat)
    requires !(lo <= p < lo + n)
    ensures PagePos(ps, p) + ps <= PagePos(ps, lo) || PagePos(ps, lo) + PagePos(ps, n) <= PagePos(ps, p)
  {
    if p < lo {
      PageOrder(ps, p, lo);
    } else {
      PageSum(ps, lo, n);
      PageSum(ps, lo + n, p - lo - n);
    }
  }

  /** A page outside the run [lo, lo + n) is untouched by a write of those whole pages. */
  lemma {:induction false} OutsideRun(s: seq<byte>, ps: nat, lo: nat, n: nat, data: seq<byte>, p: nat)
    requires |data| == PagePos(ps, n) && PagePos(ps, lo) + |data| <= |s|
    requires PagePos(ps, p) <= |s| && !(lo <= p < lo + n)
    ensures PageOf(Splice(s, PagePos(ps, lo), data), ps, p) == PageOf(s, ps, p)
  {
    RunApart(ps, lo, n, p);
    SpliceElsewhere(s, PagePos(ps, lo), data, PagePos(ps, p), PagePos(ps, p) + PageLen(|s|, ps, p));
  }

  /** A page inside the run holds its piece of the written data. */
  lemma {:induction false} InsideRun(s: seq<byte>, ps: nat, lo: nat, n: nat, data: seq<byte>, p: nat)
    requires |data| == PagePos(ps, n) && PagePos(ps, lo) + |data| <= |s|
    requires lo <= p < lo + n
    ensures PagePos(ps, p - lo) + ps <= |data| && PagePos(ps, p) + ps <= |s|
    ensures PageOf(Splice(s, PagePos(ps, lo), data), ps, p) == data[PagePos(ps, p - lo)..PagePos(ps, p - lo) + ps]
  {
    PageOrder(ps, p - lo, n);
    PageSum(ps, lo, p - lo);
    SpliceAt(s, PagePos(ps, lo), data);
    var r := Splice(s, PagePos(ps, lo), data);
    assert r[PagePos(ps, p)..PagePos(ps, p) + ps] == r[PagePos(ps, lo)..PagePos(ps, lo) + |data|][PagePos(ps, p - lo)..PagePos(ps, p - lo) + ps];
  }

  /** A direct write of whole pages, then dropping the cached copies of those pages. */
  lemma {:induction false} DirectWrite(tags: seq<CacheTag>, pages: seq<seq<byte>>, ps: nat, region: seq<byte>, content: seq<byte>, lo: nat, n: nat, data: seq<byte>)
    requires Coherent(tags, pages, ps, region, content)
    requires |data| == PagePos(ps, n) && PagePos(ps, lo) + |data| <= |region|
    ensures Coherent(Invalidated(tags, lo, lo + n), pages, ps,
                     Splice(region, PagePos(ps, lo), data), Splice(content, PagePos(ps, lo), data))
  {
    var tags' := Invalidated(tags, lo, lo + n);
    var region', content' := Splice(region, PagePos(ps, lo), data), Splice(content, PagePos(ps, lo), data);
    forall h | 0 <= h < |tags'|
      ensures |pages[h]| == ps && TagOk(tags'[h], h, |tags'|, ps, |region'|)
    {
      assert |pages[h]| == ps && TagOk(tags[h], h, |tags|, ps, |region|);
    }
    forall h | 0 <= h < |tags'| ensures GroupOk(tags', pages, ps, region', content', h) {
      assert GroupOk(tags, pages, ps, region, content, h);
      if tags'[h].realSize > 0 {
        OutsideRun(region, ps, lo, n, data, tags[h].pageNo);
        OutsideRun(content, ps, lo, n, data, tags[h].pageNo);
      }
    }
    forall p: nat | PagePos(ps, p) < |region'| && !Hit(tags', p)
      ensures PageOf(content', ps, p) == PageOf(region', ps, p)
    {
      if lo <= p < lo + n {
        InsideRun(region, ps, lo, n, data, p);
        InsideRun(content, ps, lo, n, data, p);
      } else {
        assert !Hit(tags, p);
        OutsideRun(region, ps, lo, n, data, p);
        OutsideRun(content, ps, lo, n, data, p);
      }
    }
  }

  /** A direct read in progress: the first `m` bytes are up to date, the rest as read from disk. */
  function Overlaid(want: seq<byte>, raw: seq<byte>, m: nat): (r: seq<byte>)
    requires |want| == |raw| && m <= |raw|
    ensures |r| == |raw|
  {
    seq(|raw|, i requires 0 <= i < |raw| => if i < m then want[i] else raw[i])
  }

  lemma {:induction false} OverlayPiece(want: seq<byte>, raw: seq<byte>, m: nat, piece: seq<byte>)
    requires |want| == |raw| && m + |piece| <= |raw| && piece == want[m..m + |piece|]
    ensures Splice(Overlaid(want, raw, m), m, piece) == Overlaid(want, raw, m + |piece|)
    ensures raw[m..m + |piece|] == piece ==> Overlaid(want, raw, m) == Overlaid(want, raw, m + |piece|)
  {
    assert forall i :: m <= i < m + |piece| ==> piece[i - m] == want[i];
    if raw[m..m + |piece|] == piece {
      assert forall i :: m <= i < m + |piece| ==> raw[i] == raw[m..m + |piece|][i - m];
    }
  }

  /** What an unsaved page must supply to a direct read, and that other pages need not. */
  lemma {:induction false} OverlayPage(tags: seq<CacheTag>, pages: seq<seq<byte>>, ps: nat, region: seq<byte>, content: seq<byte>, p: nat)
    requires Coherent(tags, pages, ps, region, content)
    requires PagePos(ps, p) + ps <= |region|
    ensures var g := Group(p, |tags|); |pages[g]| == ps
    ensures var g := Group(p, |tags|);
            content[PagePos(ps, p)..PagePos(ps, p) + ps]
            == if Hit(tags, p) && tags[g].dirty then pages[g] else region[PagePos(ps, p)..PagePos(ps, p) + ps]
  {
    var g := Group(p, |tags|);
    assert GroupOk(tags, pages, ps, region, content, g) && TagOk(tags[g], g, |tags|, ps, |region|);
    assert pages[g][..ps] == pages[g];
    assert PageOf(content, ps, p) == content[PagePos(ps, p)..PagePos(ps, p) + ps];
  }

  /** The same, seen from a buffer that starts at page `lo`. */
  lemma {:induction false} OverlayPageInBuffer(tags: seq<CacheTag>, pages: seq<seq<byte>>, ps: nat, region: seq<byte>, content: seq<byte>, lo: nat, p: nat, want: seq<byte>, raw: seq<byte>)
    requires Coherent(tags, pages, ps, region, content) && lo <= p
    requires |want| == |raw| && PagePos(ps, lo) + |raw| <= |region| && PagePos(ps, p - lo) + ps <= |raw|
    requires raw == region[PagePos(ps, lo)..PagePos(ps, lo) + |raw|]
    requires want == content[PagePos(ps, lo)..PagePos(ps, lo) + |raw|]
    ensures var g := Group(p, |tags|); |pages[g]| == ps
    ensures var g, m := Group(p, |tags|), PagePos(ps, p - lo);
            want[m..m + ps] == if Hit(tags, p) && tags[g].dirty then pages[g] else raw[m..m + ps]
  {
    hide PagePos, GroupOk, TagOk;
    var base, m := PagePos(ps, lo), PagePos(ps, p - lo);
    PageSum(ps, lo, p - lo);
    OverlayPage(tags, pages, ps, region, content, p);
    assert want[m..m + ps] == content[PagePos(ps, p)..PagePos(ps, p) + ps] by { SliceOfSlice(content, base, base + |raw|, m, ps); }
    assert raw[m..m + ps] == region[PagePos(ps, p)..PagePos(ps, p) + ps] by { SliceOfSlice(region, base, base + |raw|, m, ps); }
  }

  /** One step of the overlay on a direct read of pages lo, lo + 1, ... into `raw`. */
  lemma {:induction false} OverlayStep(tags: seq<CacheTag>, pages: seq<seq<byte>>, ps: nat, region: seq<byte>, content: seq<byte>, lo: nat, p: nat, want: seq<byte>, raw: seq<byte>)
    requires Coherent(tags, pages, ps, region, content) && lo <= p
    requires |want| == |raw| && PagePos(ps, lo) + |raw| <= |region| && PagePos(ps, p - lo) + ps <= |raw|
    requires raw == region[PagePos(ps, lo)..PagePos(ps, lo) + |raw|]
    requires want == content[PagePos(ps, lo)..PagePos(ps, lo) + |raw|]
    ensures var g, m := Group(p, |tags|), PagePos(ps, p - lo);
            && |pages[g]| == ps
            && Overlaid(want, raw, m + ps)
               == if Hit(tags, p) && tags[g].dirty then Splice(Overlaid(want, raw, m), m, pages[g]) else Overlaid(want, raw, m)
  {
    var m := PagePos(ps, p - lo);
    OverlayPageInBuffer(tags, pages, ps, region, content, lo, p, want, raw);
    OverlayPiece(want, raw, m, want[m..m + ps]);
  }

  /** One step of the invalidation after a direct write. */
  lemma {:induction false} InvalidateStep(tags: seq<CacheTag>, pages: seq<seq<byte>>, ps: nat, region: seq<byte>, lo: nat, cur: nat)
    requires Shaped(tags, pages, ps, region) && lo <= cur
    ensures var now := Invalidated(tags, lo, cur); var g := Group(cur, |tags|);
            Invalidated(tags, lo, cur + 1) == if Hit(now, cur) then now[g := now[g].(realSize := 0)] else now
  {
    var now, next, g := Invalidated(tags, lo, cur), Invalidated(tags, lo, cur + 1), Group(cur, |tags|);
    forall h | 0 <= h < |tags| && h != g ensures next[h] == now[h] {
      assert TagOk(tags[h], h, |tags|, ps, |region|);
    }
  }

  /** With no unsaved page the disk region itself is the represented byte array. */
  lemma {:induction false} CleanMeansOnDisk(tags: seq<CacheTag>, pages: seq<seq<byte>>, ps: nat, region: seq<byte>, content: seq<byte>)
    requires Coherent(tags, pages, ps, region, content)
    requires forall g :: 0 <= g < |tags| && tags[g].realSize > 0 ==> !tags[g].dirty
    ensures region == content
  {
    forall p: nat | PagePos(ps, p) < |region| ensures PageOf(region, ps, p) == PageOf(content, ps, p) {
      if Hit(tags, p) {
        assert GroupOk(tags, pages, ps, region, content, Group(p, |tags|));
      }
    }
    PagesDetermine(region, content, ps);
  }
}
