/**
 Where the bytes of a file lie in the data region, and what reading or writing one contiguous run
 there means for the file. Places are relative to the start of the data region.
 */
module FileBytes {
  import opened Bytes
  import opened PageCache
  import opened FatTable
  import opened Clusters

  // ----- bytes gathered from scattered places

  predicate Within(places: seq<nat>, size: nat) {
    forall i :: 0 <= i < |places| ==> places[i] < size
  }

  /** The bytes at the given places, in order. */
  function Gather(data: seq<byte>, places: seq<nat>): (r: seq<byte>)
    requires Within(places, |data|)
    ensures |r| == |places|
  {
    seq(|places|, i requires 0 <= i < |places| => data[places[i]])
  }

  /** From index `pos` on, `len` places are consecutive. */
  predicate Contiguous(places: seq<nat>, pos: nat, len: nat) {
    && pos + len <= |places|
    && forall i :: pos <= i < pos + len ==> places[i] == places[pos] + (i - pos)
  }

  /** Outside the given places nothing changed. */
  ghost predicate OnlyAt(before: seq<byte>, after: seq<byte>, places: seq<nat>) {
    && |after| == |before|
    && forall a :: 0 <= a < |before| && a !in places ==> after[a] == before[a]
  }

  lemma {:induction false} InRun(places: seq<nat>, pos: nat, len: nat, a: nat)
    requires 0 < len && Contiguous(places, pos, len) && places[pos] <= a < places[pos] + len
    ensures exists i :: pos <= i < pos + len && places[i] == a
  {
    assert places[pos + (a - places[pos])] == a;
  }

  /** A non-empty run that covers `limit` places or cannot be longer. */
  predicate MaximalRun(places: seq<nat>, pos: nat, len: nat, limit: nat) {
    && 0 < len && Contiguous(places, pos, len)
    && (len >= limit || pos + len == |places| || places[pos + len] != places[pos] + len)
  }

  lemma {:induction false} RunClipped(places: seq<nat>, pos: nat, run: nat, limit: nat, len: nat, size: nat)
    requires MaximalRun(places, pos, run, limit) && Within(places, size) && 0 < len <= run
    ensures Contiguous(places, pos, len) && places[pos] + len <= size
  {
    assert places[pos + len - 1] == places[pos] + (len - 1);
  }

  /** One access of a contiguous run of the region is the same access of the file. */
  lemma {:induction false} GatherAccessed(write: bool, before: seq<byte>, after: seq<byte>, places: seq<nat>, pos: nat, buffer: seq<byte>, result: seq<byte>)
    requires Within(places, |before|) && Distinct(places) && buffer != []
    requires Contiguous(places, pos, |buffer|)
    requires Accessed(write, before, after, places[pos], buffer, result)
    ensures Within(places, |after|)
    ensures Accessed(write, Gather(before, places), Gather(after, places), pos, buffer, result)
    ensures OnlyAt(before, after, places)
  {
    var g, g' := Gather(before, places), Gather(after, places);
    if write {
      var base := places[pos];
      forall i | 0 <= i < |places| ensures g'[i] == Splice(g, pos, buffer)[i] {
        if base <= places[i] < base + |buffer| { InRun(places, pos, |buffer|, places[i]); }
      }
      forall a | 0 <= a < |before| && a !in places ensures after[a] == before[a] {
        if base <= a < base + |buffer| { InRun(places, pos, |buffer|, a); }
      }
    } else {
      assert result == g[pos..pos + |buffer|];
    }
  }

  lemma {:induction false} OnlyAtNothing(before: seq<byte>, places: seq<nat>)
    ensures OnlyAt(before, before, places)
  {
  }

  /** A file that shares no place keeps its bytes. */
  lemma {:induction false} GatherElsewhere(before: seq<byte>, after: seq<byte>, places: seq<nat>, other: seq<nat>)
    requires Within(other, |before|) && OnlyAt(before, after, places)
    requires forall i :: 0 <= i < |other| ==> other[i] !in places
    ensures Within(other, |after|) && Gather(after, other) == Gather(before, other)
  {
    assert forall i :: 0 <= i < |other| ==> after[other[i]] == before[other[i]];
  }

  // ----- the bytes of a cluster chain

  /** The place of cluster `c`, when cluster 2 is at `first`. */
  function ClusterPlace(first: nat, cs: nat, c: nat): nat
    requires c >= FAT_MIN_CLUSTER
  {
    first + PagePos(cs, c - FAT_MIN_CLUSTER)
  }

  /** The place of byte `p` of the file: its cluster by position in the chain, its offset in that cluster. */
  function ChainPlace(first: nat, cs: nat, chain: seq<nat>, p: nat): nat
    requires cs > 0 && PageNumber(cs, p) < |chain| && forall i :: 0 <= i < |chain| ==> chain[i] >= FAT_MIN_CLUSTER
  {
    ClusterPlace(first, cs, chain[PageNumber(cs, p)]) + PageOffset(cs, p)
  }

  lemma {:induction false} PageBelow(cs: nat, p: nat, n: nat)
    requires cs > 0
    ensures p < PagePos(cs, n) <==> PageNumber(cs, p) < n
  {
    SplitPosition(cs, p);
    var k := PageNumber(cs, p);
    if k < n { PageOrder(cs, k, n); }
    if n < k { PageOrder(cs, n, k); }
  }

  lemma {:induction false} PageNumberIs(cs: nat, p: nat, n: nat)
    requires cs > 0 && PagePos(cs, n) <= p < PagePos(cs, n) + cs
    ensures PageNumber(cs, p) == n
  {
    PageBelow(cs, p, n);
    PageBelow(cs, p, n + 1);
  }

  /** All places of a chain. */
  ghost function ChainPlaces(first: nat, cs: nat, chain: seq<nat>): (r: seq<nat>)
    requires cs > 0 && forall i :: 0 <= i < |chain| ==> chain[i] >= FAT_MIN_CLUSTER
    ensures |r| == PagePos(cs, |chain|)
    ensures forall p :: 0 <= p < |r| ==> PageNumber(cs, p) < |chain| && r[p] == ChainPlace(first, cs, chain, p)
  {
    assert forall p: nat :: p < PagePos(cs, |chain|) ==> PageNumber(cs, p) < |chain| by {
      forall p: nat | p < PagePos(cs, |chain|) ensures PageNumber(cs, p) < |chain| { PageBelow(cs, p, |chain|); }
    }
    seq(PagePos(cs, |chain|), p requires 0 <= p < PagePos(cs, |chain|) => ChainPlace(first, cs, chain, p))
  }

  /** Different clusters do not overlap, and each lies inside the region. */
  lemma {:induction false} ClustersApart(first: nat, cs: nat, c: nat, d: nat)
    requires FAT_MIN_CLUSTER <= c < d
    ensures ClusterPlace(first, cs, c) + cs <= ClusterPlace(first, cs, d)
  {
    PageOrder(cs, c - FAT_MIN_CLUSTER, d - FAT_MIN_CLUSTER);
  }

  lemma {:induction false} PlacesWithin(first: nat, cs: nat, chain: seq<nat>, clusters: nat, size: nat)
    requires cs > 0 && first + PagePos(cs, clusters) <= size
    requires forall i :: 0 <= i < |chain| ==> FAT_MIN_CLUSTER <= chain[i] <= clusters + 1
    ensures Within(ChainPlaces(first, cs, chain), size)
    ensures forall p {:trigger ChainPlaces(first, cs, chain)[p]} :: 0 <= p < PagePos(cs, |chain|) ==> ChainPlaces(first, cs, chain)[p] >= first
  {
    var places := ChainPlaces(first, cs, chain);
    forall p | 0 <= p < |places| ensures first <= places[p] < size {
      PageOrder(cs, chain[PageNumber(cs, p)] - FAT_MIN_CLUSTER, clusters);
    }
  }

  /** No two bytes of a file share a place. */
  lemma {:induction false} PlacesDistinct(first: nat, cs: nat, chain: seq<nat>)
    requires cs > 0 && Distinct(chain) && forall i :: 0 <= i < |chain| ==> chain[i] >= FAT_MIN_CLUSTER
    ensures Distinct(ChainPlaces(first, cs, chain))
  {
    var places := ChainPlaces(first, cs, chain);
    forall p, q | 0 <= p < q < |places| ensures places[p] != places[q] {
      SplitPosition(cs, p);
      SplitPosition(cs, q);
      var i, j := PageNumber(cs, p), PageNumber(cs, q);
      if i != j {
        if chain[i] < chain[j] { ClustersApart(first, cs, chain[i], chain[j]); } else { ClustersApart(first, cs, chain[j], chain[i]); }
      }
    }
  }

  /** Files on disjoint chains share no place. */
  lemma {:induction false} PlacesDisjoint(first: nat, cs: nat, chain: seq<nat>, other: seq<nat>)
    requires cs > 0 && (forall i :: 0 <= i < |chain| ==> chain[i] >= FAT_MIN_CLUSTER)
    requires forall i :: 0 <= i < |other| ==> other[i] >= FAT_MIN_CLUSTER && other[i] !in chain
    ensures forall q :: 0 <= q < PagePos(cs, |other|) ==> ChainPlaces(first, cs, other)[q] !in ChainPlaces(first, cs, chain)
  {
    var places, others := ChainPlaces(first, cs, chain), ChainPlaces(first, cs, other);
    forall p, q | 0 <= p < |places| && 0 <= q < |others| ensures places[p] != others[q] {
      var c, d := chain[PageNumber(cs, p)], other[PageNumber(cs, q)];
      assert c in chain;
      if c < d { ClustersApart(first, cs, c, d); } else { ClustersApart(first, cs, d, c); }
    }
  }

  /** From index `i` on, `m` clusters of the chain follow each other on the disk. */
  predicate Adjacent(chain: seq<nat>, i: nat, m: nat) {
    0 < m && i + m <= |chain| && forall k :: i <= k < i + m ==> chain[k] == chain[i] + (k - i)
  }

  lemma {:induction false} RunPlace(first: nat, cs: nat, chain: seq<nat>, i: nat, m: nat, p: nat)
    requires cs > 0 && (forall k :: 0 <= k < |chain| ==> chain[k] >= FAT_MIN_CLUSTER)
    requires i + m <= |chain| && PagePos(cs, i) <= p < PagePos(cs, i + m)
    requires forall k :: i <= k < i + m ==> chain[k] == chain[i] + (k - i)
    ensures PageNumber(cs, p) < |chain| && i < |chain|
    ensures ChainPlace(first, cs, chain, p) == ClusterPlace(first, cs, chain[i]) + (p - PagePos(cs, i))
  {
    var k := PageNumber(cs, p);
    PageBelow(cs, p, i);
    PageBelow(cs, p, i + m);
    SplitPosition(cs, p);
    assert i <= k < i + m && chain[k] == chain[i] + (k - i);
    PageSum(cs, i, k - i);
    PageSum(cs, chain[i] - FAT_MIN_CLUSTER, k - i);
    assert i + (k - i) == k;
    assert chain[i] - FAT_MIN_CLUSTER + (k - i) == chain[k] - FAT_MIN_CLUSTER;
  }

  /** Clusters that follow each other on the disk and in the chain make one contiguous run. */
  lemma {:induction false} RunIsContiguous(first: nat, cs: nat, chain: seq<nat>, i: nat, m: nat, offset: nat)
    requires cs > 0 && (forall k :: 0 <= k < |chain| ==> chain[k] >= FAT_MIN_CLUSTER)
    requires Adjacent(chain, i, m) && offset < cs
    ensures PagePos(cs, m) >= cs && PagePos(cs, i) + PagePos(cs, m) <= PagePos(cs, |chain|)
    ensures Contiguous(ChainPlaces(first, cs, chain), PagePos(cs, i) + offset, PagePos(cs, m) - offset)
    ensures ChainPlaces(first, cs, chain)[PagePos(cs, i) + offset] == ClusterPlace(first, cs, chain[i]) + offset
  {
    var places, base := ChainPlaces(first, cs, chain), ClusterPlace(first, cs, chain[i]);
    PageOrder(cs, 0, m);
    PageSum(cs, i, m);
    if i + m < |chain| { PageOrder(cs, i + m, |chain|); }
    forall p | PagePos(cs, i) <= p < PagePos(cs, i) + PagePos(cs, m) ensures places[p] == base + (p - PagePos(cs, i)) {
      RunPlace(first, cs, chain, i, m, p);
    }
  }

  /** A run of clusters that does not go on in the chain does not go on among the places. */
  lemma {:induction false} RunEnds(first: nat, cs: nat, chain: seq<nat>, i: nat, m: nat, offset: nat)
    requires cs > 0 && (forall k :: 0 <= k < |chain| ==> chain[k] >= FAT_MIN_CLUSTER)
    requires 0 < m && i + m < |chain| && offset < cs && chain[i + m] != chain[i] + m
    requires PagePos(cs, m) >= cs && PagePos(cs, i) + PagePos(cs, m) < PagePos(cs, |chain|)
    ensures var places, pos, len := ChainPlaces(first, cs, chain), PagePos(cs, i) + offset, PagePos(cs, m) - offset;
            places[pos + len] != ClusterPlace(first, cs, chain[i]) + offset + len
  {
    hide PagePos, PageNumber;
    PageSum(cs, i, m);
    PagePosNext(cs, i + m);
    PageNumberIs(cs, PagePos(cs, i + m), i + m);
    SplitPosition(cs, PagePos(cs, i + m));
    PageSum(cs, chain[i] - FAT_MIN_CLUSTER, m);
    if chain[i + m] < chain[i] + m { ClustersApart(first, cs, chain[i + m], chain[i] + m); } else { ClustersApart(first, cs, chain[i] + m, chain[i + m]); }
  }

  /** The run FatOFilePosition reports from offset `offset` of the `i`-th cluster on. */
  lemma {:induction false} RunOfClusters(first: nat, cs: nat, chain: seq<nat>, i: nat, m: nat, offset: nat, limit: nat)
    requires cs > 0 && (forall k :: 0 <= k < |chain| ==> chain[k] >= FAT_MIN_CLUSTER)
    requires Adjacent(chain, i, m) && offset < cs
    requires cs - offset + PagePos(cs, m - 1) >= limit || i + m == |chain| || chain[i + m] != chain[i] + m
    ensures var places, pos := ChainPlaces(first, cs, chain), PagePos(cs, i) + offset;
            && MaximalRun(places, pos, cs - offset + PagePos(cs, m - 1), limit)
            && places[pos] == ClusterPlace(first, cs, chain[i]) + offset
  {
    RunIsContiguous(first, cs, chain, i, m, offset);
    PageSum(cs, i, m);
    if i + m < |chain| && chain[i + m] != chain[i] + m {
      PageOrder(cs, i + m, |chain|);
      RunEnds(first, cs, chain, i, m, offset);
    }
  }

  /** A longer chain only adds bytes at the end. */
  lemma {:induction false} PlacesPrefix(first: nat, cs: nat, chain: seq<nat>, n: nat)
    requires cs > 0 && n <= |chain| && forall k :: 0 <= k < |chain| ==> chain[k] >= FAT_MIN_CLUSTER
    ensures PagePos(cs, n) <= PagePos(cs, |chain|)
    ensures ChainPlaces(first, cs, chain[..n]) == ChainPlaces(first, cs, chain)[..PagePos(cs, n)]
  {
    if n < |chain| { PageOrder(cs, n, |chain|); }
  }
}
