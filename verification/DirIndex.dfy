/**
 The two hash tables over a list of directory entries (FatPkg/EnhancedFatDxe/Hash.c) and the linear
 search they stand for. A bucket is the sequence of entries its forward links run through.
 */
module DirIndex {
  import opened LongName
  import opened ShortName
  import opened Wrappers

  const HASH_TABLE_SIZE: nat := 0x400

  // ----- names

  /** The entry is the one a caller means by `name`. */
  predicate Matches(col: Collation, name: Name, e: DirEnt) {
    col.equal(name, e.fileString) || (Is8Dot3(col, name) && To8Dot3(col, name) == e.entry.fileName)
  }

  /** The plain linear search: the first entry that matches. */
  function LinearSearch(col: Collation, list: seq<DirEnt>, name: Name): Option<DirEnt> {
    if list == [] then None
    else if Matches(col, name, list[0]) then Some(list[0])
    else LinearSearch(col, list[1..], name)
  }

  /** A name that is a valid short name is its entry's short name. */
  predicate Consistent(col: Collation, e: DirEnt) {
    Is8Dot3(col, e.fileString) ==> e.entry.fileName == To8Dot3(col, e.fileString)
  }

  predicate Apart(col: Collation, a: DirEnt, b: DirEnt) {
    a.entry.fileName != b.entry.fileName && !col.equal(a.fileString, b.fileString)
  }

  /** No two entries share a long or a short name. */
  ghost predicate Unique(col: Collation, list: seq<DirEnt>) {
    && (forall i :: 0 <= i < |list| ==> Consistent(col, list[i]))
    && forall i, j :: 0 <= i < j < |list| ==> Apart(col, list[i], list[j])
  }

  lemma {:induction false} MatchesOverlap(col: Collation, name: Name, a: DirEnt, b: DirEnt)
    requires Lawful(col) && Consistent(col, a) && Consistent(col, b) && Matches(col, name, a) && Matches(col, name, b)
    ensures !Apart(col, a, b)
  {
    if col.equal(name, a.fileString) { EqualShort(col, name, a.fileString); }
    if col.equal(name, b.fileString) { EqualShort(col, name, b.fileString); }
    assert col.equal(name, a.fileString) ==> col.equal(a.fileString, name);
    hide To8Dot3, UpperLaws, FatLaws;
  }

  /** Then a name means at most one entry, whichever of the two names it is. */
  lemma {:induction false} AtMostOneMatch(col: Collation, list: seq<DirEnt>, name: Name, i: nat, j: nat)
    requires Lawful(col) && Unique(col, list) && i < |list| && j < |list|
    requires Matches(col, name, list[i]) && Matches(col, name, list[j])
    ensures i == j
  {
    hide Lawful, Apart, Matches, Consistent;
    MatchesOverlap(col, name, list[i], list[j]);
    MatchesOverlap(col, name, list[j], list[i]);
  }

  lemma {:induction false} LinearSearchHas(col: Collation, list: seq<DirEnt>, name: Name)
    ensures var r := LinearSearch(col, list, name);
            && (r.Some? ==> r.value in list && Matches(col, name, r.value))
            && (r.None? <==> forall e :: e in list ==> !Matches(col, name, e))
  {
    if list != [] && !Matches(col, name, list[0]) {
      LinearSearchHas(col, list[1..], name);
      assert list == [list[0]] + list[1..];
    }
  }

  /** Any match is the one the linear search finds. */
  lemma {:induction false} AnyMatchIsFirst(col: Collation, list: seq<DirEnt>, name: Name, e: DirEnt)
    requires Lawful(col) && Unique(col, list) && e in list && Matches(col, name, e)
    ensures LinearSearch(col, list, name) == Some(e)
  {
    LinearSearchHas(col, list, name);
    var r := LinearSearch(col, list, name).value;
    var i, j :| 0 <= i < |list| && 0 <= j < |list| && list[i] == e && list[j] == r;
    AtMostOneMatch(col, list, name, i, j);
  }

  lemma {:induction false} UniquePart(col: Collation, a: seq<DirEnt>, mid: seq<DirEnt>, b: seq<DirEnt>)
    requires Unique(col, a + mid + b)
    ensures Unique(col, a + b) && Unique(col, a)
  {
    hide Apart, Consistent;
    var all, rest := a + mid + b, a + b;
    assert forall i :: 0 <= i < |rest| ==> rest[i] == all[if i < |a| then i else i + |mid|];
    assert forall i :: 0 <= i < |a| ==> a[i] == all[i];
  }

  lemma {:induction false} ApartBothWays(col: Collation, d: DirEnt, list: seq<DirEnt>)
    requires Lawful(col) && forall k :: 0 <= k < |list| ==> Apart(col, d, list[k])
    ensures forall k :: 0 <= k < |list| ==> Apart(col, d, list[k]) && Apart(col, list[k], d)
  {
  }

  /** A new entry with a fresh long and a fresh short name keeps the names unique. */
  lemma {:induction false} UniqueInsert(col: Collation, list: seq<DirEnt>, at: nat, d: DirEnt)
    requires Lawful(col) && Unique(col, list) && Consistent(col, d) && at <= |list|
    requires forall k :: 0 <= k < |list| ==> Apart(col, d, list[k])
    ensures Unique(col, list[..at] + [d] + list[at..])
  {
    hide Apart, Consistent, Lawful;
    var new_ := list[..at] + [d] + list[at..];
    ApartBothWays(col, d, list);
    assert new_[at] == d && forall k :: 0 <= k < |list| ==> new_[if k < at then k else k + 1] == list[k];
    forall i, j | 0 <= i < j < |new_| ensures Apart(col, new_[i], new_[j]) {
      UniqueInsertPair(col, list, new_, at, i, j);
    }
    forall i | 0 <= i < |new_| ensures Consistent(col, new_[i]) {
      assert i != at ==> new_[i] == list[if i < at then i else i - 1];
    }
  }

  lemma {:induction false} UniqueInsertPair(col: Collation, old_: seq<DirEnt>, new_: seq<DirEnt>, at: nat, i: nat, j: nat)
    requires at < |new_| == |old_| + 1 && i < j < |new_|
    requires forall k :: 0 <= k < |old_| ==> new_[if k < at then k else k + 1] == old_[k]
    requires forall k :: 0 <= k < |old_| ==> Apart(col, new_[at], old_[k]) && Apart(col, old_[k], new_[at])
    requires forall k, l :: 0 <= k < l < |old_| ==> Apart(col, old_[k], old_[l])
    ensures Apart(col, new_[i], new_[j])
  {
    hide Apart;
    assert i != at ==> new_[i] == old_[if i < at then i else i - 1];
    assert j != at ==> new_[j] == old_[if j < at then j else j - 1];
  }

  // ----- hash tables

  /** FatHashLongName: the CRC of the upper-cased name, masked. */
  function LongHash(col: Collation, name: Name): (h: nat)
    ensures h < HASH_TABLE_SIZE
  {
    col.longCrc(col.upper(name)) % HASH_TABLE_SIZE
  }

  /** FatHashShortName. */
  function ShortHash(col: Collation, short: FatName): (h: nat)
    ensures h < HASH_TABLE_SIZE
  {
    col.shortCrc(short) % HASH_TABLE_SIZE
  }

  function HashOf(col: Collation, long: bool, e: DirEnt): (h: nat)
    ensures h < HASH_TABLE_SIZE
  {
    if long then LongHash(col, e.fileString) else ShortHash(col, e.entry.fileName)
  }

  /** Every listed entry is in its bucket, once, and nothing else is. */
  ghost predicate Indexed(col: Collation, long: bool, table: seq<seq<DirEnt>>, list: seq<DirEnt>) {
    && |table| == HASH_TABLE_SIZE
    && (forall e :: e in list ==> e in table[HashOf(col, long, e)])
    && (forall b, e :: 0 <= b < |table| && e in table[b] ==> e in list && HashOf(col, long, e) == b)
    && (forall b :: 0 <= b < |table| ==> NoDuplicates(table[b]))
  }

  ghost predicate NoDuplicates(s: seq<DirEnt>) {
    forall i, j :: 0 <= i < j < |s| ==> s[i] != s[j]
  }

  ghost predicate SameNames(col: Collation, long: bool, e: DirEnt, name: Name, short: FatName) {
    if long then col.equal(name, e.fileString) else short == e.entry.fileName
  }

  /** FatLongNameHashSearch: the index of the first node with that name, or the length of the bucket. */
  method LongNameHashSearch(col: Collation, table: seq<seq<DirEnt>>, name: Name) returns (b: nat, i: nat)
    requires |table| == HASH_TABLE_SIZE
    ensures b == LongHash(col, name) && i <= |table[b]|
    ensures i < |table[b]| ==> col.equal(name, table[b][i].fileString)
    ensures forall k :: 0 <= k < i ==> !col.equal(name, table[b][k].fileString)
  {
    b, i := LongHash(col, name), 0;
    while i < |table[b]| && !col.equal(name, table[b][i].fileString)
      invariant i <= |table[b]| && forall k :: 0 <= k < i ==> !col.equal(name, table[b][k].fileString)
    {
      i := i + 1;
    }
  }

  /** FatShortNameHashSearch. */
  method ShortNameHashSearch(col: Collation, table: seq<seq<DirEnt>>, short: FatName) returns (b: nat, i: nat)
    requires |table| == HASH_TABLE_SIZE
    ensures b == ShortHash(col, short) && i <= |table[b]|
    ensures i < |table[b]| ==> short == table[b][i].entry.fileName
    ensures forall k :: 0 <= k < i ==> short != table[b][k].entry.fileName
  {
    b, i := ShortHash(col, short), 0;
    while i < |table[b]| && short != table[b][i].entry.fileName
      invariant i <= |table[b]| && forall k :: 0 <= k < i ==> short != table[b][k].entry.fileName
    {
      i := i + 1;
    }
  }

  /** A bucket searched in vain: no listed entry has the name. */
  lemma {:induction false} NotInBucket(col: Collation, long: bool, table: seq<seq<DirEnt>>, list: seq<DirEnt>, name: Name, short: FatName)
    requires Lawful(col) && Indexed(col, long, table, list)
    requires var b := if long then LongHash(col, name) else ShortHash(col, short);
             forall k :: 0 <= k < |table[b]| ==> !SameNames(col, long, table[b][k], name, short)
    ensures forall e :: e in list ==> !SameNames(col, long, e, name, short)
  {
    forall e | e in list ensures !SameNames(col, long, e, name, short) {
      var h := HashOf(col, long, e);
      assert e in table[h];
      var k :| 0 <= k < |table[h]| && table[h][k] == e;
      assert SameNames(col, long, e, name, short) ==> h == if long then LongHash(col, name) else ShortHash(col, short);
    }
  }

  /** FatInsertToHashTable on one table: the new node becomes the head of its bucket. */
  function Inserted(col: Collation, long: bool, table: seq<seq<DirEnt>>, d: DirEnt): seq<seq<DirEnt>>
    requires |table| == HASH_TABLE_SIZE
  {
    table[HashOf(col, long, d) := [d] + table[HashOf(col, long, d)]]
  }

  lemma {:induction false} InsertedIndexed(col: Collation, long: bool, table: seq<seq<DirEnt>>, list: seq<DirEnt>, d: DirEnt, list': seq<DirEnt>)
    requires Indexed(col, long, table, list) && d !in list && forall e :: e in list' <==> e in list || e == d
    ensures Indexed(col, long, Inserted(col, long, table, d), list')
  {
    var h := HashOf(col, long, d);
    var table' := Inserted(col, long, table, d);
    assert d !in table[h];
    forall e | e in list' ensures e in table'[HashOf(col, long, e)] {
      if e != d { assert e in table[HashOf(col, long, e)]; }
    }
    forall b | 0 <= b < |table'| ensures NoDuplicates(table'[b]) {
      assert NoDuplicates(table[b]);
    }
  }

  /** Unlinking the `i`-th node of bucket `b`. */
  function Unlinked(table: seq<seq<DirEnt>>, b: nat, i: nat): seq<seq<DirEnt>>
    requires b < |table| && i < |table[b]|
  {
    table[b := table[b][..i] + table[b][i + 1..]]
  }

  lemma {:induction false} UnlinkedIndexed(col: Collation, long: bool, table: seq<seq<DirEnt>>, list: seq<DirEnt>, b: nat, i: nat, list': seq<DirEnt>)
    requires Indexed(col, long, table, list) && b < |table| && i < |table[b]|
    requires forall e :: e in list' <==> e in list && e != table[b][i]
    ensures Indexed(col, long, Unlinked(table, b, i), list')
  {
    var d, bucket, table' := table[b][i], table[b], Unlinked(table, b, i);
    assert NoDuplicates(bucket) && d in table[b] && HashOf(col, long, d) == b;
    forall e ensures e in table'[b] <==> e in bucket && e != d {
      if e in bucket && e != d {
        var k :| 0 <= k < |bucket| && bucket[k] == e;
        assert table'[b][if k < i then k else k - 1] == e;
      }
    }
    forall c | 0 <= c < |table'| ensures NoDuplicates(table'[c]) {
      assert NoDuplicates(table[c]);
      if c == b { assert forall k :: 0 <= k < |table'[b]| ==> table'[b][k] == bucket[if k < i then k else k + 1]; }
    }
    forall c, e | 0 <= c < |table'| && e in table'[c] ensures e in list' && HashOf(col, long, e) == c {
      assert e in table[c];
    }
    forall e | e in list' ensures e in table'[HashOf(col, long, e)] {
      assert e in table[HashOf(col, long, e)];
    }
  }
}
