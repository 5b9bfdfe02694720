/**
 All files of a volume together: what any sequence of the chain operations of
 FatPkg/EnhancedFatDxe/FileSpace.c keeps. The effect of one operation is the one OpenFile.OFile
 proves for GrowEof, ShrinkEof and TruncateOFile.
 */
module VolumeRuns {
  import opened Bytes
  import opened PageCache
  import opened DiskCache
  import opened FatTable
  import opened Clusters
  import opened FileBytes
  import opened OpenFile
  import opened ReadWrite

  /** `chains[f]` is the chain of file `f`; `bad` holds the clusters marked unusable. */
  datatype State = State(table: seq<nat>, chains: seq<seq<nat>>, bad: set<nat>)

  function Start(chain: seq<nat>): nat {
    if chain == [] then FAT_CLUSTER_FREE else chain[0]
  }

  predicate Used(chains: seq<seq<nat>>, c: nat) {
    exists f :: 0 <= f < |chains| && c in chains[f]
  }

  /** Every chain is finite, acyclic and terminated. */
  ghost predicate AllChains(s: State) {
    forall f :: 0 <= f < |s.chains| ==> IsChain(s.table, Start(s.chains[f]), s.chains[f])
  }

  /** No cluster is in two chains. */
  predicate Disjoint(chains: seq<seq<nat>>) {
    forall f, g, c :: 0 <= f < |chains| && 0 <= g < |chains| && f != g && c in chains[f] ==> c !in chains[g]
  }

  /** The free entries are exactly those in no chain and not bad. */
  ghost predicate Accounted(s: State) {
    forall c: nat :: IsCluster(s.table, c) ==>
      (s.table[c] != FAT_CLUSTER_FREE <==> c in s.bad || Used(s.chains, c)) && !(c in s.bad && Used(s.chains, c))
  }

  ghost predicate WellFormed(s: State) {
    AllChains(s) && Disjoint(s.chains) && Accounted(s)
  }

  datatype Op = GrowBy(k: nat) | GrowFails | CutTo(n: nat)

  /** One operation on file `f`; creating and deleting leave an empty chain and change nothing here. */
  ghost predicate Next(s: State, s': State, f: nat, op: Op) {
    && f < |s.chains| == |s'.chains| && s'.bad == s.bad && s'.chains == s.chains[f := s'.chains[f]]
    && IsChain(s'.table, Start(s'.chains[f]), s'.chains[f])
    && match op
       case GrowBy(k) => Grown(s.table, s.chains[f], k, s'.table, s'.chains[f])
       case GrowFails => s'.chains[f] == s.chains[f] && Restored(s.table, s.chains[f], s'.table)
       case CutTo(n) => Cut(s.table, s.chains[f], n, s'.table, s'.chains[f])
  }

  /** Whatever FatGrowEof does is one of these steps, or a growth that is cut back at once. */
  lemma {:induction false} GrowthIsStep(s: State, s': State, f: nat, cur: nat, need: nat) returns (op: Op, between: State, cut: Op)
    requires f < |s.chains| == |s'.chains| && s'.bad == s.bad && s'.chains == s.chains[f := s'.chains[f]]
    requires IsChain(s'.table, Start(s'.chains[f]), s'.chains[f])
    requires GrowthOutcome(s.table, s.chains[f], cur, need, s'.table, s'.chains[f])
    ensures Next(s, s', f, op) || (Next(s, between, f, op) && Next(between, s', f, cut))
    ensures cur == |s.chains[f]| ==> Next(s, s', f, op)
  {
    hide Grown, Restored, Cut, IsChain, FreeCount;
    var free, chain0 := FreeCount(s.table), s.chains[f];
    cut, between := CutTo(cur), s;
    op := if free >= need then GrowBy(need) else if free + 1 == need && free > 0 then GrowBy(free) else GrowFails;
    if op.GrowFails? && cur != |chain0| {
      var t, full :| Exhausted(s.table, chain0, t, full)
                     && if cur <= |full| then Cut(t, full, cur, s'.table, s'.chains[f]) else s'.table == t && s'.chains[f] == full;
      between := State(t, s.chains[f := full], s.bad);
      op := if free == 0 then GrowFails else GrowBy(free);
      assert between.chains[f] == full;
    }
  }

  /**
   An operation changes the entry of a cluster only if the cluster is in the file's chain before or
   after; a cluster that joins the chain was free, one that leaves it becomes free.
   */
  lemma {:induction false} StepEntry(s: State, s': State, f: nat, op: Op, c: nat)
    requires WellFormed(s) && Next(s, s', f, op) && IsCluster(s.table, c)
    ensures |s'.table| == |s.table|
    ensures c in s'.chains[f] ==> s'.table[c] != FAT_CLUSTER_FREE && (c in s.chains[f] || s.table[c] == FAT_CLUSTER_FREE)
    ensures c !in s'.chains[f] && c in s.chains[f] ==> s'.table[c] == FAT_CLUSTER_FREE
    ensures c !in s'.chains[f] && c !in s.chains[f] ==> s'.table[c] == s.table[c]
  {
    hide Linked, Distinct, FreeFrom;
    var old_, new_ := s.chains[f], s'.chains[f];
    ChainInTable(s'.table, Start(new_), new_);
    match op
    case GrowBy(k) =>
      assert forall j :: 0 <= j < |old_| ==> new_[j] == old_[j];
    case GrowFails =>
    case CutTo(n) =>
      assert forall j :: n <= j < |old_| ==> old_[n..][j - n] == old_[j];
  }

  /** The other files keep their chains. */
  lemma {:induction false} StepKeepsOthers(s: State, s': State, f: nat, op: Op, g: nat)
    requires WellFormed(s) && Next(s, s', f, op) && g < |s.chains| && g != f
    ensures s'.chains[g] == s.chains[g] && IsChain(s'.table, Start(s'.chains[g]), s'.chains[g])
    ensures forall c :: c in s'.chains[f] ==> c !in s'.chains[g]
  {
    var other := s.chains[g];
    assert IsChain(s.table, Start(other), other);
    ChainInTable(s.table, Start(other), other);
    ChainInTable(s'.table, Start(s'.chains[f]), s'.chains[f]);
    forall c | c in other ensures c !in s'.chains[f] && IsCluster(s.table, c) && |s'.table| == |s.table| && s'.table[c] == s.table[c] {
      assert IsCluster(s.table, c) && s.table[c] != FAT_CLUSTER_FREE;
      StepEntry(s, s', f, op, c);
    }
    if other != [] {
      StepEntry(s, s', f, op, other[0]);
      LinkedFrame(s.table, s'.table, Start(other), other);
    }
  }

  /** Growing, failing to grow, shrinking and truncating keep the volume well formed. */
  lemma {:induction false} StepKeepsWellFormed(s: State, s': State, f: nat, op: Op)
    requires WellFormed(s) && Next(s, s', f, op)
    ensures WellFormed(s')
  {
    forall g | 0 <= g < |s.chains| ensures IsChain(s'.table, Start(s'.chains[g]), s'.chains[g]) {
      if g != f { StepKeepsOthers(s, s', f, op, g); }
    }
    forall g, h, c | 0 <= g < |s.chains| && 0 <= h < |s.chains| && g != h && c in s'.chains[g] ensures c !in s'.chains[h] {
      if g != f { StepKeepsOthers(s, s', f, op, g); }
      if h != f { StepKeepsOthers(s, s', f, op, h); }
    }
    forall c: nat | IsCluster(s'.table, c)
      ensures (s'.table[c] != FAT_CLUSTER_FREE <==> c in s'.bad || Used(s'.chains, c)) && !(c in s'.bad && Used(s'.chains, c))
    {
      StepAccounts(s, s', f, op, c);
    }
  }

  lemma {:induction false} StepAccounts(s: State, s': State, f: nat, op: Op, c: nat)
    requires WellFormed(s) && Next(s, s', f, op) && IsCluster(s'.table, c)
    ensures (s'.table[c] != FAT_CLUSTER_FREE <==> c in s'.bad || Used(s'.chains, c)) && !(c in s'.bad && Used(s'.chains, c))
  {
    TableSize(s, s', f, op);
    StepEntry(s, s', f, op, c);
    UsedUpdate(s.chains, f, s'.chains[f], c);
    assert c in s.chains[f] ==> Used(s.chains, c);
    if c in s.chains[f] {
      assert forall g :: 0 <= g < |s.chains| && g != f ==> c !in s.chains[g];
    }
  }

  lemma {:induction false} TableSize(s: State, s': State, f: nat, op: Op)
    requires Next(s, s', f, op)
    ensures |s'.table| == |s.table|
  {
  }

  lemma {:induction false} UsedUpdate(chains: seq<seq<nat>>, f: nat, chain: seq<nat>, c: nat)
    requires f < |chains|
    ensures Used(chains[f := chain], c) <==> c in chain || exists g :: 0 <= g < |chains| && g != f && c in chains[g]
  {
    var chains' := chains[f := chain];
    if c in chain { assert c in chains'[f]; }
    if g :| 0 <= g < |chains| && g != f && c in chains[g] { assert c in chains'[g]; }
  }

  /** A run of operations, the i-th on file `files[i]`. */
  ghost predicate IsRun(states: seq<State>, files: seq<nat>, ops: seq<Op>) {
    && |states| == |files| + 1 && |files| == |ops|
    && forall i :: 0 <= i < |ops| ==> Next(states[i], states[i + 1], files[i], ops[i])
  }

  /** Over any run every chain stays finite, acyclic, terminated and unshared, and nothing leaks. */
  lemma {:induction false} RunKeepsWellFormed(states: seq<State>, files: seq<nat>, ops: seq<Op>, i: nat)
    requires IsRun(states, files, ops) && WellFormed(states[0]) && i < |states|
    ensures WellFormed(states[i])
  {
    if i > 0 {
      RunKeepsWellFormed(states, files, ops, i - 1);
      StepKeepsWellFormed(states[i - 1], states[i], files[i - 1], ops[i - 1]);
    }
  }

  // ----- conservation of clusters

  function Total(chains: seq<seq<nat>>): nat {
    if chains == [] then 0 else |chains[0]| + Total(chains[1..])
  }

  lemma {:induction false} TotalUpdate(chains: seq<seq<nat>>, f: nat, chain: seq<nat>)
    requires f < |chains|
    ensures Total(chains[f := chain]) + |chains[f]| == Total(chains) + |chain|
  {
    if f > 0 {
      TotalUpdate(chains[1..], f - 1, chain);
      assert chains[f := chain][1..] == chains[1..][f - 1 := chain];
    } else {
      assert chains[f := chain][1..] == chains[1..];
    }
  }

  /** Giving back a chain frees as many clusters as it has. */
  lemma {:induction false} FreedCount(table: seq<nat>, chain: seq<nat>)
    requires Distinct(chain) && InTable(table, chain)
    requires forall i :: 0 <= i < |chain| ==> table[chain[i]] != FAT_CLUSTER_FREE
    ensures FreeCount(Freed(table, chain)) == FreeCount(table) + |chain|
    decreases |chain|
  {
    if chain == [] {
      assert Freed(table, chain) == table;
    } else {
      var c, rest := chain[0], chain[1..];
      var table' := table[c := FAT_CLUSTER_FREE];
      assert IsCluster(table, chain[0]);
      FreeFromUpdate(table, FAT_MIN_CLUSTER, c, FAT_CLUSTER_FREE);
      assert forall i :: 0 <= i < |rest| ==> rest[i] == chain[i + 1] != c;
      FreedCount(table', rest);
      assert Freed(table, chain) == Freed(table', rest) by {
        assert chain == [c] + rest;
      }
    }
  }

  lemma {:induction false} CutCount(table0: seq<nat>, chain0: seq<nat>, n: nat, table: seq<nat>, chain: seq<nat>)
    requires Cut(table0, chain0, n, table, chain) && IsChain(table0, Start(chain0), chain0)
    ensures FreeCount(table) == FreeCount(table0) + (|chain0| - n)
  {
    var t := if n > 0 then table0[chain0[n - 1] := FAT_CLUSTER_LAST] else table0;
    ChainInTable(table0, Start(chain0), chain0);
    if n > 0 {
      FreeFromUpdate(table0, FAT_MIN_CLUSTER, chain0[n - 1], FAT_CLUSTER_LAST);
    }
    var tail := chain0[n..];
    assert forall i :: 0 <= i < |tail| ==> tail[i] == chain0[n + i];
    FreedCount(t, tail);
    SameFreeCount(table, Shrunk(table0, chain0, n), FAT_MIN_CLUSTER);
  }

  lemma {:induction false} SameFreeCount(a: seq<nat>, b: seq<nat>, lo: nat)
    requires |a| == |b| && forall c :: lo <= c < |a| ==> (a[c] == FAT_CLUSTER_FREE <==> b[c] == FAT_CLUSTER_FREE)
    ensures FreeFrom(a, lo) == FreeFrom(b, lo)
    decreases |a| - lo
  {
    if lo < |a| { SameFreeCount(a, b, lo + 1); }
  }

  lemma {:induction false} StepConserves(s: State, s': State, f: nat, op: Op)
    requires WellFormed(s) && Next(s, s', f, op)
    ensures FreeCount(s'.table) + Total(s'.chains) == FreeCount(s.table) + Total(s.chains)
  {
    TotalUpdate(s.chains, f, s'.chains[f]);
    assert IsChain(s.table, Start(s.chains[f]), s.chains[f]);
    match op
    case GrowBy(k) =>
    case GrowFails =>
      ChainInTable(s.table, Start(s.chains[f]), s.chains[f]);
      SameFreeCount(s.table, s'.table, FAT_MIN_CLUSTER);
    case CutTo(n) => CutCount(s.table, s.chains[f], n, s'.table, s'.chains[f]);
  }

  /** Over any run, free clusters and clusters in files add up to the same number. */
  lemma {:induction false} RunConserves(states: seq<State>, files: seq<nat>, ops: seq<Op>, i: nat)
    requires IsRun(states, files, ops) && WellFormed(states[0]) && i < |states|
    ensures FreeCount(states[i].table) + Total(states[i].chains) == FreeCount(states[0].table) + Total(states[0].chains)
  {
    if i > 0 {
      RunConserves(states, files, ops, i - 1);
      RunKeepsWellFormed(states, files, ops, i - 1);
      StepConserves(states[i - 1], states[i], files[i - 1], ops[i - 1]);
    }
  }

  // ----- the bytes of other files

  /** An access of one file leaves every byte of every other file alone. */
  lemma {:induction false} OtherFilesKeepTheirBytes(s: State, f: nat, g: nat, first: nat, cs: nat, before: seq<byte>, after: seq<byte>)
    requires WellFormed(s) && f < |s.chains| && g < |s.chains| && f != g && cs > 0
    requires |s.table| >= FAT_MIN_CLUSTER && first + PagePos(cs, |s.table| - FAT_MIN_CLUSTER) <= |before|
    ensures (forall i :: 0 <= i < |s.chains[f]| ==> s.chains[f][i] >= FAT_MIN_CLUSTER)
    ensures (forall i :: 0 <= i < |s.chains[g]| ==> s.chains[g][i] >= FAT_MIN_CLUSTER)
    ensures var other := ChainPlaces(first, cs, s.chains[g]);
            && Within(other, |before|)
            && (OnlyAt(before, after, ChainPlaces(first, cs, s.chains[f])) ==> Gather(after, other) == Gather(before, other))
  {
    var chain, otherChain := s.chains[f], s.chains[g];
    assert IsChain(s.table, Start(chain), chain) && IsChain(s.table, Start(otherChain), otherChain);
    ChainInTable(s.table, Start(chain), chain);
    ChainInTable(s.table, Start(otherChain), otherChain);
    var places, other := ChainPlaces(first, cs, chain), ChainPlaces(first, cs, otherChain);
    PlacesWithin(first, cs, otherChain, |s.table| - FAT_MIN_CLUSTER, |before|);
    PlacesDisjoint(first, cs, chain, otherChain);
    if OnlyAt(before, after, places) {
      GatherElsewhere(before, after, places, other);
    }
  }

  // ----- the growth that falls one cluster short

  /** FatGrowEof reports success exactly for the growths it delivers, unless exactly one cluster is missing. */
  lemma {:induction false} GrowthHonestIff(table0: seq<nat>, chain0: seq<nat>, need: nat, table: seq<nat>, chain: seq<nat>)
    requires GrowthOutcome(table0, chain0, |chain0|, need, table, chain) && need > 0
    ensures (OFile.GrowStatus(FreeCount(table0), need) == EFI_SUCCESS <==> |chain| == |chain0| + need)
            <==> !OneShort(FreeCount(table0), need)
  {
  }

  /** A volume with one free cluster and an empty file that is to hold two. */
  lemma {:induction false} OneShortExample()
    ensures var table0 := [FAT_CLUSTER_LAST, FAT_CLUSTER_LAST, FAT_CLUSTER_FREE, FAT_CLUSTER_LAST];
            && FreeCount(table0) == 1 && OFile.GrowStatus(1, 2) == EFI_SUCCESS
            && forall table, chain :: GrowthOutcome(table0, [], 0, 2, table, chain) ==> |chain| == 1
  {
    var table0: seq<nat> := [FAT_CLUSTER_LAST, FAT_CLUSTER_LAST, FAT_CLUSTER_FREE, FAT_CLUSTER_LAST];
    assert FreeFrom(table0, 4) == 0;
    assert FreeFrom(table0, 3) == 0;
    assert FreeFrom(table0, 2) == 1;
  }

  /**
   The access that follows, on a FAT16 volume with 2048-byte clusters and a root directory of 512 entries at
   byte 8704: the second cluster of the file is past the end, and the driver would access the root directory.
   */
  lemma {:induction false} StrayExample(f: OFile)
    requires f.ChainOk() && |f.chain| == 1 && !f.isFixedRootDir && f.EndMark() == FAT_CLUSTER_LAST
    requires f.volume.clusterSize == 2048 && f.volume.fat.io.rootPos == 8704 && f.volume.firstClusterPos == 8704 + 512 * 32
    ensures f.PastEnd(2048) && f.PastEnd(4095) && !f.PastEnd(2047) && !f.PastEnd(4096)
    ensures f.Lost(2048) ==> f.volume.fat.io.rootPos <= f.posDisk == f.volume.firstClusterPos - 3 * 2048 && f.posDisk + f.posRem < f.volume.firstClusterPos
  {
    if f.Lost(2048) {
      assert PagePos(2048, 3) == 3 * 2048;
      f.StrayAddress(2048);
    }
  }
}
