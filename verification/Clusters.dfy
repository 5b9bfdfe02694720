/**
 Value-level theory of the cluster space: the table as a sequence of entries, the free entries in
 it, and the cluster chains that run through it.
 */
module Clusters {
  import opened FatTable

  /** Entries 0 and 1 are not clusters. */
  predicate IsCluster(table: seq<nat>, c: nat) {
    FAT_MIN_CLUSTER <= c < |table|
  }

  predicate IsFree(table: seq<nat>, c: nat) {
    IsCluster(table, c) && table[c] == FAT_CLUSTER_FREE
  }

  /** Free entries from index `lo` on. */
  function FreeFrom(table: seq<nat>, lo: nat): nat
    decreases |table| - lo
  {
    if lo >= |table| then 0
    else (if table[lo] == FAT_CLUSTER_FREE then 1 else 0) + FreeFrom(table, lo + 1)
  }

  function FreeCount(table: seq<nat>): nat {
    FreeFrom(table, FAT_MIN_CLUSTER)
  }

  /** The lowest free cluster from `lo` on, or the end of the table. */
  function FirstFree(table: seq<nat>, lo: nat): (r: nat)
    ensures r < |table| ==> lo <= r && table[r] == FAT_CLUSTER_FREE
    ensures forall c :: lo <= c < r && c < |table| ==> table[c] != FAT_CLUSTER_FREE
    ensures r <= |table| || r == lo
    decreases |table| - lo
  {
    if lo >= |table| || table[lo] == FAT_CLUSTER_FREE then lo else FirstFree(table, lo + 1)
  }

  /** Every cluster below the hint is taken. */
  predicate NoneFreeBelow(table: seq<nat>, hint: nat) {
    forall c :: FAT_MIN_CLUSTER <= c < hint && c < |table| ==> table[c] != FAT_CLUSTER_FREE
  }

  /** A scan that has passed [from, to) without finding a free cluster. */
  ghost predicate SameFirstFree(table: seq<nat>, from: nat, to: nat) {
    && from <= to
    && if to < |table| then FirstFree(table, from) == FirstFree(table, to) else FirstFree(table, from) >= |table|
  }

  /** What the allocator hands out: next fit from the hint, then the lowest free cluster, then nothing. */
  function NextFit(table: seq<nat>, hint: nat): nat {
    var c := FirstFree(table, hint);
    if c < |table| then c
    else
      var d := FirstFree(table, FAT_MIN_CLUSTER);
      if d < |table| then d else FAT_CLUSTER_LAST
  }

  lemma {:induction false} FreeFromZero(table: seq<nat>, lo: nat)
    ensures FreeFrom(table, lo) == 0 <==> forall c :: lo <= c < |table| ==> table[c] != FAT_CLUSTER_FREE
    decreases |table| - lo
  {
    if lo < |table| { FreeFromZero(table, lo + 1); }
  }

  /** One entry changes: the count changes by at most one, in the direction of the change. */
  lemma {:induction false} FreeFromUpdate(table: seq<nat>, lo: nat, i: nat, v: nat)
    requires i < |table|
    ensures FreeFrom(table[i := v], lo)
            == FreeFrom(table, lo) - (if lo <= i && table[i] == FAT_CLUSTER_FREE then 1 else 0)
                                   + (if lo <= i && v == FAT_CLUSTER_FREE then 1 else 0)
    decreases |table| - lo
  {
    if lo < |table| { FreeFromUpdate(table, lo + 1, i, v); }
  }

  lemma {:induction false} FreeFromBound(table: seq<nat>, lo: nat)
    ensures lo <= |table| ==> FreeFrom(table, lo) <= |table| - lo
    ensures lo > |table| ==> FreeFrom(table, lo) == 0
    decreases |table| - lo
  {
    if lo < |table| { FreeFromBound(table, lo + 1); }
  }

  /**
   The allocator is complete: it fails exactly when no cluster is free. It takes the lowest free cluster at or
   above the hint, and the lowest of all if there is none.
   */
  lemma {:induction false} NextFitComplete(table: seq<nat>, hint: nat)
    requires hint >= FAT_MIN_CLUSTER && |table| <= FAT_CLUSTER_SPECIAL
    ensures var c := NextFit(table, hint);
            if FreeCount(table) == 0 then c == FAT_CLUSTER_LAST else IsFree(table, c) && !EndOfFatChain(c)
    ensures forall d: nat :: IsFree(table, d) && hint <= d ==> hint <= NextFit(table, hint) <= d
    ensures (forall d: nat :: IsFree(table, d) ==> d < hint) ==> forall d: nat :: IsFree(table, d) ==> NextFit(table, hint) <= d
  {
    FreeFromZero(table, FAT_MIN_CLUSTER);
    var c := FirstFree(table, hint);
    assert c < |table| ==> IsFree(table, c) && c >= hint;
  }

  /** With a second free cluster about, a scan that starts past `c` does not return `c`. */
  lemma {:induction false} NextFitAvoids(table: seq<nat>, c: nat)
    requires IsFree(table, c) && FreeCount(table) >= 2
    ensures NextFit(table, c + 1) != c
  {
    if FirstFree(table, c + 1) >= |table| && FirstFree(table, FAT_MIN_CLUSTER) == c {
      var rest := table[c := FAT_CLUSTER_LAST];
      FreeFromUpdate(table, FAT_MIN_CLUSTER, c, FAT_CLUSTER_LAST);
      FreeFromZero(rest, FAT_MIN_CLUSTER);
      assert false;
    }
  }

  // ----- chains

  predicate Distinct(s: seq<nat>) {
    forall i, j :: 0 <= i < j < |s| ==> s[i] != s[j]
  }

  /** Following the table from `c` visits exactly `chain` and then an end mark. */
  predicate Linked(table: seq<nat>, c: nat, chain: seq<nat>)
    decreases |chain|
  {
    if chain == [] then EndOfFatChain(c)
    else c == chain[0] && IsCluster(table, c) && Linked(table, table[c], chain[1..])
  }

  /** The chain of a file: empty, with start 0, or a terminated list of distinct clusters. */
  predicate IsChain(table: seq<nat>, start: nat, chain: seq<nat>) {
    && Distinct(chain)
    && if chain == [] then start == FAT_CLUSTER_FREE else Linked(table, start, chain)
  }

  lemma {:induction false} LinkedAt(table: seq<nat>, c: nat, chain: seq<nat>, i: nat)
    requires Linked(table, c, chain) && i < |chain|
    ensures IsCluster(table, chain[i])
    ensures if i + 1 < |chain| then table[chain[i]] == chain[i + 1] else EndOfFatChain(table[chain[i]])
    ensures Linked(table, chain[i], chain[i..])
    decreases i
  {
    if i > 0 {
      LinkedAt(table, table[c], chain[1..], i - 1);
      assert chain[1..][i - 1..] == chain[i..];
    } else {
      assert chain[0..] == chain;
    }
  }

  /** The `i`-th cluster leads to the next one, or ends the chain. */
  predicate LinkAt(table: seq<nat>, chain: seq<nat>, i: nat)
    requires i < |chain|
  {
    IsCluster(table, chain[i]) && (if i + 1 < |chain| then table[chain[i]] == chain[i + 1] else EndOfFatChain(table[chain[i]]))
  }

  /** The converse: local links make a chain. */
  lemma {:induction false} LinkedFrom(table: seq<nat>, chain: seq<nat>)
    requires chain != [] && forall i: nat :: i < |chain| ==> LinkAt(table, chain, i)
    ensures Linked(table, chain[0], chain)
  {
    assert LinkAt(table, chain, 0);
    if |chain| > 1 {
      forall i: nat | i < |chain| - 1 ensures LinkAt(table, chain[1..], i) { assert LinkAt(table, chain, i + 1); }
      LinkedFrom(table, chain[1..]);
    }
  }

  /** A chain depends only on the entries of its own clusters. */
  lemma {:induction false} LinkedFrame(table: seq<nat>, table': seq<nat>, c: nat, chain: seq<nat>)
    requires Linked(table, c, chain) && |table'| == |table|
    requires forall x :: x in chain && x < |table| ==> table'[x] == table[x]
    ensures Linked(table', c, chain)
    decreases |chain|
  {
    if chain != [] { LinkedFrame(table, table', table[c], chain[1..]); }
  }

  /** The table after a chain has been given back. */
  function Freed(table: seq<nat>, chain: seq<nat>): (r: seq<nat>)
    ensures |r| == |table|
  {
    seq(|table|, i requires 0 <= i < |table| => if i in chain then FAT_CLUSTER_FREE else table[i])
  }

  predicate InTable(table: seq<nat>, chain: seq<nat>) {
    forall i :: 0 <= i < |chain| ==> IsCluster(table, chain[i])
  }

  lemma {:induction false} ChainInTable(table: seq<nat>, start: nat, chain: seq<nat>)
    requires IsChain(table, start, chain)
    ensures InTable(table, chain) && start == if chain == [] then FAT_CLUSTER_FREE else chain[0]
    ensures forall i :: 0 <= i < |chain| ==> table[chain[i]] != FAT_CLUSTER_FREE
  {
    forall i | 0 <= i < |chain| ensures IsCluster(table, chain[i]) && table[chain[i]] != FAT_CLUSTER_FREE {
      LinkedAt(table, start, chain, i);
      if i + 1 < |chain| { LinkedAt(table, start, chain, i + 1); }
    }
  }

  lemma {:induction false} ChainStart(table: seq<nat>, start: nat, chain: seq<nat>)
    requires IsChain(table, start, chain)
    ensures start == if chain == [] then FAT_CLUSTER_FREE else chain[0]
    ensures chain != [] ==> start != FAT_CLUSTER_FREE
  {
    ChainInTable(table, start, chain);
  }

  // ----- shrinking

  /** FatShrinkEof on a chain: keep the first `n` clusters, terminate there, give the rest back. */
  function Shrunk(table: seq<nat>, chain: seq<nat>, n: nat): (r: seq<nat>)
    requires n <= |chain| && InTable(table, chain)
    ensures |r| == |table|
  {
    Freed(if n > 0 then table[chain[n - 1] := FAT_CLUSTER_LAST] else table, chain[n..])
  }

  /** The kept part is a chain again. */
  lemma {:induction false} ShrunkIsChain(table: seq<nat>, start: nat, chain: seq<nat>, n: nat)
    requires IsChain(table, start, chain) && n <= |chain|
    ensures InTable(table, chain)
    ensures IsChain(Shrunk(table, chain, n), if n == 0 then FAT_CLUSTER_FREE else start, chain[..n])
    ensures Distinct(chain[n..])
  {
    ChainInTable(table, start, chain);
    var table', kept := Shrunk(table, chain, n), chain[..n];
    if n > 0 {
      forall i: nat | i < n ensures LinkAt(table', kept, i) {
        LinkedAt(table, start, chain, i);
        assert kept[i] !in chain[n..];
      }
      LinkedFrom(table', kept);
    }
  }

  /** Terminating a chain early does not disturb the part cut off. */
  lemma {:induction false} CutOffStaysLinked(table: seq<nat>, start: nat, chain: seq<nat>, n: nat, c: nat)
    requires IsChain(table, start, chain) && 0 < n <= |chain| && Linked(table, c, chain[n..])
    ensures chain[n - 1] < |table| && Linked(table[chain[n - 1] := FAT_CLUSTER_LAST], c, chain[n..])
  {
    LinkedAt(table, start, chain, n - 1);
    assert chain[n - 1] !in chain[n..];
    LinkedFrame(table, table[chain[n - 1] := FAT_CLUSTER_LAST], c, chain[n..]);
  }

  lemma {:induction false} DistinctLast(s: seq<nat>)
    requires Distinct(s) && s != []
    ensures forall j :: 0 <= j < |s| - 1 ==> s[j] != s[|s| - 1]
  {
  }

  // ----- growing

  /** FatSetFatEntry of the last cluster of a chain, if there is one. */
  function SetLast(table: seq<nat>, full: seq<nat>, value: nat): (r: seq<nat>)
    requires InTable(table, full)
    ensures |r| == |table|
  {
    if full == [] then table else table[full[|full| - 1] := value]
  }

  /**
   A file in the middle of FatGrowEof: the first `n` clusters of `full` are its old chain, the others
   have been taken, and the last of those is not marked in the table yet.
   */
  ghost predicate Growing(table0: seq<nat>, n: nat, full: seq<nat>, table: seq<nat>)
  {
    && |table| == |table0| && n <= |full| && Distinct(full) && InTable(table0, full)
    && (forall j :: n <= j < |full| ==> table0[full[j]] == FAT_CLUSTER_FREE)
    && (forall c: nat :: IsCluster(table, c) && c !in full ==> table[c] == table0[c])
    && (if |full| == n then table == table0
        else && (forall j {:trigger table[full[j]]} :: 0 <= j < |full| - 1 ==> table[full[j]] == full[j + 1])
             && table[full[|full| - 1]] == FAT_CLUSTER_FREE
             && FreeCount(table) + (|full| - n) == FreeCount(table0) + 1)
  }

  lemma {:induction false} GrowingCount(table0: seq<nat>, n: nat, full: seq<nat>, table: seq<nat>)
    requires Growing(table0, n, full, table)
    ensures |full| - n <= FreeCount(table0) && (full != [] ==> IsCluster(table0, full[|full| - 1]))
    ensures |table| == |table0| && InTable(table0, full)
  {
    FreeFromZero(table, FAT_MIN_CLUSTER);
    assert full != [] ==> IsCluster(table0, full[|full| - 1]);
  }

  lemma {:induction false} GrowingNone(table: seq<nat>, start: nat, chain: seq<nat>)
    requires IsChain(table, start, chain)
    ensures Growing(table, |chain|, chain, table) && start == if chain == [] then FAT_CLUSTER_FREE else chain[0]
    ensures InTable(table, chain)
  {
    ChainInTable(table, start, chain);
  }

  /** The unmarked tail is the only cluster of the file that still looks free. */
  lemma {:induction false} GrowingNotFree(table0: seq<nat>, start: nat, n: nat, full: seq<nat>, table: seq<nat>, c: nat)
    requires Growing(table0, n, full, table) && IsChain(table0, start, full[..n])
    requires IsFree(table, c) && (|full| > n ==> c != full[|full| - 1])
    ensures c !in full
  {
    ChainInTable(table0, start, full[..n]);
    forall j | 0 <= j < |full| && (|full| > n ==> j < |full| - 1)
      ensures table[full[j]] != FAT_CLUSTER_FREE
    {
      if |full| > n { assert table[full[j]] == full[j + 1]; } else { assert full[..n][j] == full[j]; }
    }
  }

  /** One round of the loop in FatGrowEof with a cluster that is not the unmarked tail. */
  lemma {:induction false} GrowStep(table0: seq<nat>, start: nat, n: nat, full: seq<nat>, table: seq<nat>, c: nat)
    requires Growing(table0, n, full, table) && IsChain(table0, start, full[..n])
    requires IsFree(table, c) && (|full| > n ==> c != full[|full| - 1])
    ensures InTable(table, full)
    ensures Growing(table0, n, full + [c], SetLast(table, full, c))
  {
    hide FreeFrom, Linked;
    GrowingNotFree(table0, start, n, full, table, c);
    GrowStepClusters(table0, n, full, table, c);
    GrowStepFrame(table0, n, full, table, c);
    hide Distinct;
    if full != [] {
      GrowStepLinks(table0, start, n, full, table, c);
      FreeFromUpdate(table, FAT_MIN_CLUSTER, full[|full| - 1], c);
    }
  }

  lemma {:induction false} GrowStepClusters(table0: seq<nat>, n: nat, full: seq<nat>, table: seq<nat>, c: nat)
    requires Growing(table0, n, full, table) && IsFree(table, c) && c !in full
    ensures Distinct(full + [c]) && InTable(table0, full + [c])
    ensures forall j :: n <= j < |full| + 1 ==> table0[(full + [c])[j]] == FAT_CLUSTER_FREE
  {
    hide FreeFrom;
  }

  lemma {:induction false} GrowStepFrame(table0: seq<nat>, n: nat, full: seq<nat>, table: seq<nat>, c: nat)
    requires Growing(table0, n, full, table) && IsFree(table, c) && c !in full
    ensures InTable(table, full)
    ensures var table' := SetLast(table, full, c);
            |table'| == |table0| && table'[c] == FAT_CLUSTER_FREE
            && forall x: nat :: IsCluster(table', x) && x !in full + [c] ==> table'[x] == table0[x]
  {
    hide FreeFrom, Distinct;
    assert full != [] ==> full[|full| - 1] in full;
  }

  lemma {:induction false} OldLink(table0: seq<nat>, start: nat, n: nat, full: seq<nat>, table: seq<nat>, j: nat)
    requires Growing(table0, n, full, table) && IsChain(table0, start, full[..n]) && j < |full|
    ensures full[j] < |table|
    ensures j < |full| - 1 ==> table[full[j]] == full[j + 1]
    ensures |full| == n && j == n - 1 ==> table[full[j]] != FAT_CLUSTER_FREE
  {
    hide FreeFrom, Linked, Distinct;
    assert IsCluster(table0, full[j]);
    if |full| == n {
      assert full[..n] == full;
      LinkedAt(table0, start, full, j);
    }
  }

  lemma {:induction false} GrowStepLinks(table0: seq<nat>, start: nat, n: nat, full: seq<nat>, table: seq<nat>, c: nat)
    requires Growing(table0, n, full, table) && IsChain(table0, start, full[..n]) && full != []
    ensures InTable(table, full)
    ensures var table', more := SetLast(table, full, c), full + [c];
            (forall j :: 0 <= j < |full| ==> more[j] < |table'|)
            && forall j {:trigger table'[more[j]]} :: 0 <= j < |full| ==> table'[more[j]] == more[j + 1]
    ensures |full| == n ==> table[full[n - 1]] != FAT_CLUSTER_FREE
  {
    hide Linked, FreeFrom, Distinct;
    GrowingCount(table0, n, full, table);
    hide Growing, IsChain;
    var table', more := SetLast(table, full, c), full + [c];
    forall j: nat {:trigger table'[more[j]]} | j < |full| ensures more[j] < |table'| && table'[more[j]] == more[j + 1] {
      NewLink(table0, start, n, full, table, c, j);
    }
    OldLink(table0, start, n, full, table, |full| - 1);
  }

  lemma {:induction false} NewLink(table0: seq<nat>, start: nat, n: nat, full: seq<nat>, table: seq<nat>, c: nat, j: nat)
    requires Growing(table0, n, full, table) && IsChain(table0, start, full[..n]) && j < |full| && InTable(table, full)
    ensures full[j] < |table| && SetLast(table, full, c)[full[j]] == (full + [c])[j + 1]
  {
    OldLink(table0, start, n, full, table, j);
    DistinctLast(full);
    hide Growing, IsChain, Distinct, InTable;
  }

  /**
   One allocation in FatGrowEof. The allocator may hand out the unmarked tail a second time: that is
   the case exactly when the file already holds every cluster that was free at the start.
   */
  lemma {:induction false} GrowRound(table0: seq<nat>, start: nat, n: nat, full: seq<nat>, table: seq<nat>, hint: nat, c: nat)
    requires Growing(table0, n, full, table) && IsChain(table0, start, full[..n]) && |table| <= FAT_CLUSTER_SPECIAL
    requires hint >= FAT_MIN_CLUSTER && (|full| > n ==> hint == full[|full| - 1] + 1) && c == NextFit(table, hint)
    ensures InTable(table, full)
    ensures EndOfFatChain(c) ==> |full| == n && FreeCount(table0) == 0
    ensures !EndOfFatChain(c) ==> IsFree(table, c)
    ensures !EndOfFatChain(c) && |full| > n && c == full[|full| - 1] ==>
      FreeCount(table0) == |full| - n && FreeCount(SetLast(table, full, c)) == 0
    ensures !EndOfFatChain(c) && (|full| > n ==> c != full[|full| - 1]) ==>
      Growing(table0, n, full + [c], SetLast(table, full, c))
  {
    NextFitComplete(table, hint);
    if |full| > n {
      var tail := full[|full| - 1];
      FreeFromZero(table, FAT_MIN_CLUSTER);
      if c == tail {
        if FreeCount(table) >= 2 { NextFitAvoids(table, tail); }
        FreeFromUpdate(table, FAT_MIN_CLUSTER, tail, c);
      } else {
        GrowStep(table0, start, n, full, table, c);
      }
    } else if !EndOfFatChain(c) {
      GrowStep(table0, start, n, full, table, c);
    }
  }

  /** Terminating the list at the tail: the old chain is a prefix of the new one. */
  lemma {:induction false} GrowFinish(table0: seq<nat>, n: nat, full: seq<nat>, table: seq<nat>)
    requires Growing(table0, n, full, table) && |full| > n
    ensures InTable(table, full)
    ensures var table' := SetLast(table, full, FAT_CLUSTER_LAST);
            && IsChain(table', full[0], full)
            && FreeCount(table') + (|full| - n) == FreeCount(table0)
            && forall c: nat :: IsCluster(table0, c) && c !in full ==> table'[c] == table0[c]
  {
    hide FreeFrom, Distinct;
    DistinctLast(full);
    var table' := SetLast(table, full, FAT_CLUSTER_LAST);
    FreeFromUpdate(table, FAT_MIN_CLUSTER, full[|full| - 1], FAT_CLUSTER_LAST);
    forall j: nat | j < |full| ensures LinkAt(table', full, j) {
      assert IsCluster(table0, full[j]);
      assert j + 1 < |full| ==> table[full[j]] == full[j + 1];
    }
    LinkedFrom(table', full);
  }

  /** Giving the added clusters back restores every entry but the terminator, which stays a terminator. */
  lemma {:induction false} GrowUndo(table0: seq<nat>, start: nat, n: nat, full: seq<nat>, table: seq<nat>, c: nat)
    requires Growing(table0, n, full, table) && IsChain(table0, start, full[..n]) && |full| > n
    requires IsCluster(table0, c)
    ensures InTable(table, full)
    ensures Shrunk(SetLast(table, full, FAT_CLUSTER_LAST), full, n)[c]
            == if n > 0 && c == full[n - 1] then FAT_CLUSTER_LAST else table0[c]
  {
    if c in full {
      var j :| 0 <= j < |full| && full[j] == c;
      if j >= n {
        assert full[n..][j - n] == c;
      } else {
        LinkedAt(table0, start, full[..n], j);
        assert c !in full[n..];
        assert table[full[j]] == full[j + 1];
      }
    } else {
      assert c !in full[n..];
    }
  }

  // ----- outcomes of the operations on one file

  /** The chain grew by `k` clusters that were free before; nothing else changed. */
  ghost predicate Grown(table0: seq<nat>, chain0: seq<nat>, k: nat, table: seq<nat>, chain: seq<nat>)
  {
    && |table| == |table0| && |chain| == |chain0| + k && chain[..|chain0|] == chain0 && InTable(table0, chain)
    && (forall j :: |chain0| <= j < |chain| ==> table0[chain[j]] == FAT_CLUSTER_FREE)
    && (forall c: nat :: IsCluster(table0, c) && c !in chain ==> table[c] == table0[c])
    && FreeCount(table) + k == FreeCount(table0)
  }

  /** Same chain; at most its terminator was rewritten as the canonical end mark. */
  ghost predicate Restored(table0: seq<nat>, chain: seq<nat>, table: seq<nat>)
  {
    && |table| == |table0|
    && forall c: nat :: IsCluster(table0, c) ==>
         table[c] == if chain != [] && c == chain[|chain| - 1] then FAT_CLUSTER_LAST else table0[c]
  }

  /** The chain was cut to `n` clusters and the rest given back; nothing else changed. */
  ghost predicate Cut(table0: seq<nat>, chain0: seq<nat>, n: nat, table: seq<nat>, chain: seq<nat>)
  {
    && n <= |chain0| && InTable(table0, chain0) && chain == chain0[..n]
    && |table| == |table0|
    && forall c: nat :: IsCluster(table0, c) ==> table[c] == Shrunk(table0, chain0, n)[c]
  }

  /** The chain after as many allocations as there were free clusters, terminated. */
  ghost predicate Exhausted(table0: seq<nat>, chain0: seq<nat>, table: seq<nat>, chain: seq<nat>)
  {
    && IsChain(table, if chain == [] then FAT_CLUSTER_FREE else chain[0], chain)
    && if FreeCount(table0) == 0 then chain == chain0 && Restored(table0, chain0, table)
       else Grown(table0, chain0, FreeCount(table0), table, chain)
  }

  /** What a growth that fails leaves: the exhausted chain, cut back to `cur` clusters if it has that many. */
  ghost predicate RolledBack(table0: seq<nat>, chain0: seq<nat>, cur: nat, table: seq<nat>, chain: seq<nat>)
  {
    exists t: seq<nat>, full: seq<nat> {:trigger Exhausted(table0, chain0, t, full)} ::
      && Exhausted(table0, chain0, t, full)
      && if cur <= |full| then Cut(t, full, cur, table, chain) else table == t && chain == full
  }

  /**
   A growth by `need` clusters of a file whose size asks for `cur`, by the number of clusters that were free;
   see OpenFile.OFile.GrowEof. A file that has the clusters its size asks for is restored when the growth fails.
   */
  ghost predicate GrowthOutcome(table0: seq<nat>, chain0: seq<nat>, cur: nat, need: nat, table: seq<nat>, chain: seq<nat>)
  {
    var free := FreeCount(table0);
    if free >= need then Grown(table0, chain0, need, table, chain)
    else if free + 1 == need && free > 0 then Grown(table0, chain0, free, table, chain)
    else
      && RolledBack(table0, chain0, cur, table, chain)
      && (cur == |chain0| ==> chain == chain0 && Restored(table0, chain0, table))
  }

  /** Rewriting the terminator of a chain keeps the chain. */
  lemma {:induction false} ReterminatedIsChain(table: seq<nat>, start: nat, chain: seq<nat>)
    requires IsChain(table, start, chain)
    ensures InTable(table, chain) && IsChain(SetLast(table, chain, FAT_CLUSTER_LAST), start, chain)
  {
    ChainInTable(table, start, chain);
    if chain != [] {
      var table' := SetLast(table, chain, FAT_CLUSTER_LAST);
      forall i: nat | i < |chain| ensures LinkAt(table', chain, i) {
        LinkedAt(table, start, chain, i);
      }
      LinkedFrom(table', chain);
    }
  }

  /** What the allocation loop of FatGrowEof leaves once the list is terminated. */
  lemma {:induction false} GrowOutcome(table0: seq<nat>, start: nat, n: nat, full: seq<nat>, pending: seq<nat>)
    requires Growing(table0, n, full, pending) && IsChain(table0, start, full[..n])
    ensures InTable(pending, full)
    ensures var table := SetLast(pending, full, FAT_CLUSTER_LAST);
            && IsChain(table, if full == [] then FAT_CLUSTER_FREE else full[0], full)
            && (|full| > n ==> Grown(table0, full[..n], |full| - n, table, full))
  {
    if |full| > n {
      GrowFinish(table0, n, full, pending);
    } else {
      assert full[..n] == full;
      ReterminatedIsChain(table0, start, full);
      ChainInTable(table0, start, full);
    }
  }

  lemma {:induction false} ExhaustedOutcome(table0: seq<nat>, start: nat, n: nat, full: seq<nat>, pending: seq<nat>)
    requires Growing(table0, n, full, pending) && IsChain(table0, start, full[..n]) && |full| == n + FreeCount(table0)
    ensures InTable(pending, full) && Exhausted(table0, full[..n], SetLast(pending, full, FAT_CLUSTER_LAST), full)
  {
    hide FreeFrom;
    GrowOutcome(table0, start, n, full, pending);
    hide Growing;
    if |full| == n {
      assert full[..n] == full;
      RestoredByMark(table0, n, full, pending);
    }
  }

  lemma {:induction false} RestoredByMark(table0: seq<nat>, n: nat, full: seq<nat>, pending: seq<nat>)
    requires Growing(table0, n, full, pending) && |full| == n && InTable(pending, full)
    ensures Restored(table0, full, SetLast(pending, full, FAT_CLUSTER_LAST))
  {
  }

  /** After a failed growth FatShrinkEof puts everything back. */
  lemma {:induction false} GrowRolledBack(table0: seq<nat>, start: nat, n: nat, full: seq<nat>, pending: seq<nat>, table: seq<nat>)
    requires Growing(table0, n, full, pending) && IsChain(table0, start, full[..n]) && InTable(pending, full)
    requires Cut(SetLast(pending, full, FAT_CLUSTER_LAST), full, n, table, full[..n])
    ensures Restored(table0, full[..n], table)
  {
    forall c: nat | IsCluster(table0, c)
      ensures table[c] == if n > 0 && c == full[n - 1] then FAT_CLUSTER_LAST else table0[c]
    {
      if |full| > n {
        GrowUndo(table0, start, n, full, pending, c);
      } else {
        assert full[n..] == [];
      }
    }
  }
}
