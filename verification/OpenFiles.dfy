/**
 The tree of open files of a volume and the directory entries behind it: FatOpenDirEnt, FatCloseDirEnt and
 FatRemoveDirEnt in FatPkg/EnhancedFatDxe/DirectoryManage.c, FatDelete in Delete.c, FatIFileClose,
 FatCheckOFileRef and FatCheckVolumeRef in Flush.c. Addresses are numbers that are handed out once.
 */
module OpenFiles {
  import opened Wrappers

  /** FAT_OFILE: its directory entry, its place in the tree and the handles on it. */
  datatype OFile = OFile(dirEnt: nat, parent: Option<nat>, children: set<nat>, opens: set<nat>)

  type Files = map<nat, OFile>

  /** Links in both directions agree; parents were opened before their children. */
  ghost predicate Tree(files: Files) {
    && (forall f, c :: f in files && c in files[f].children ==> c in files && files[c].parent == Some(f))
    && (forall f :: f in files && files[f].parent.Some? ==>
          files[f].parent.value in files && f in files[files[f].parent.value].children && files[f].parent.value < f)
  }

  predicate Unreferenced(files: Files, f: nat)
    requires f in files
  {
    files[f].opens == {} && files[f].children == {}
  }

  /** `f` is `g` or above it in the tree. */
  predicate AtOrAbove(files: Files, f: nat, g: nat)
    requires g in files
    decreases g
  {
    f == g || (files[g].parent.Some? && files[g].parent.value in files && files[g].parent.value < g
               && AtOrAbove(files, f, files[g].parent.value))
  }

  /** There is an open handle at or below `f`. */
  ghost predicate Busy(files: Files, f: nat) {
    exists g :: g in files && files[g].opens != {} && AtOrAbove(files, f, g)
  }

  /** Every open directory entry has one file and every file one directory entry. */
  ghost predicate Entries(files: Files, ofileOf: map<nat, nat>) {
    && (forall f :: f in files ==> files[f].dirEnt in ofileOf && ofileOf[files[f].dirEnt] == f)
    && (forall d :: d in ofileOf ==> ofileOf[d] in files && files[ofileOf[d]].dirEnt == d)
  }

  /** Handles and files agree on who is open. */
  ghost predicate Handles(files: Files, handles: map<nat, nat>, next: nat) {
    && (forall h :: h in handles ==> handles[h] in files && h in files[handles[h]].opens && h < next)
    && (forall f, h :: f in files && h in files[f].opens ==> h in handles && handles[h] == f)
  }

  ghost predicate Rooted(files: Files, root: Option<nat>, next: nat) {
    && (forall f :: f in files ==> f < next && (files[f].parent == None <==> root == Some(f)))
    && (root.Some? ==> root.value in files)
  }

  ghost predicate Pending(files: Files, checkRef: seq<nat>, except: Option<nat>) {
    && NoDuplicates(checkRef) && (forall f :: f in checkRef ==> f in files)
    && (forall f :: f in files && Unreferenced(files, f) ==> f in checkRef || except == Some(f))
  }

  // ----- directory entries

  type Name = string

  /** The FAT_DIRENT of the root is part of the volume. */
  const ROOT_DIR_ENT: nat := 0

  /**
   The FAT_DIRENTs: `listing` holds the child lists of the directories, by directory entry and name;
   `invalid` those taken out of their list but still in use; `freed` those that have been given back.
   */
  datatype Records = Records(listing: map<(nat, Name), nat>, invalid: set<nat>, freed: set<nat>)

  predicate Gone(r: Records, d: nat) {
    d in r.invalid || d in r.freed
  }

  /** Listed entries are alive, differ, and belong to directories that are alive. */
  ghost predicate Alive(r: Records, next: nat) {
    && (forall k :: k in r.listing ==> r.listing[k] < next && r.listing[k] != ROOT_DIR_ENT && !Gone(r, r.listing[k]) && !Gone(r, k.0))
    && (forall k, l :: k in r.listing && l in r.listing && r.listing[k] == r.listing[l] ==> k == l)
    && (forall d :: d in r.invalid ==> d < next && d != ROOT_DIR_ENT && d !in r.freed)
    && (forall d :: d in r.freed ==> d < next && d != ROOT_DIR_ENT)
  }

  ghost predicate ListedBelow(files: Files, r: Records, f: nat)
    requires f in files && files[f].parent.Some?
  {
    var p := files[f].parent.value;
    p in files && exists name: Name :: (files[p].dirEnt, name) in r.listing && r.listing[(files[p].dirEnt, name)] == files[f].dirEnt
  }

  /**
   The entry of an open file has not been freed. It is the root's, or in the list of the parent, or out of the
   list and marked invalid.
   */
  ghost predicate EntryKept(files: Files, r: Records, f: nat)
    requires f in files
  {
    && files[f].dirEnt !in r.freed && (files[f].parent == None <==> files[f].dirEnt == ROOT_DIR_ENT)
    && (files[f].parent.Some? && files[f].dirEnt !in r.invalid ==> ListedBelow(files, r, f))
  }

  /** Every open file has its entry, and invalid entries are there for an open file. */
  ghost predicate Backed(files: Files, ofileOf: map<nat, nat>, r: Records) {
    && (forall f :: f in files ==> EntryKept(files, r, f))
    && (forall d :: d in r.invalid ==> d in ofileOf)
  }

  /** FatRemoveDirEnt: out of the list of its directory, and marked. */
  function Removed(r: Records, d: nat): Records {
    Records(map k | k in r.listing && r.listing[k] != d :: r.listing[k], r.invalid + {d}, r.freed)
  }

  /** FatCloseDirEnt on the entry: given back if it is marked. */
  function Released(r: Records, d: nat): Records {
    if d in r.invalid then Records(r.listing, r.invalid - {d}, r.freed + {d}) else r
  }

  /** A new FAT_DIRENT in the list of a directory. */
  function Listed(r: Records, dir: nat, name: Name, d: nat): Records {
    Records(r.listing[(dir, name) := d], r.invalid, r.freed)
  }

  lemma {:induction false} RemovedKeeps(files: Files, ofileOf: map<nat, nat>, r: Records, f: nat, next: nat)
    requires f in files && files[f].parent.Some? && Entries(files, ofileOf) && Backed(files, ofileOf, r) && Alive(r, next)
    requires files[f].dirEnt !in r.invalid && forall k :: k in r.listing ==> k.0 != files[f].dirEnt
    ensures var r' := Removed(r, files[f].dirEnt); Alive(r', next) && Backed(files, ofileOf, r')
  {
    var d := files[f].dirEnt;
    var r' := Removed(r, d);
    assert EntryKept(files, r, f) && ListedBelow(files, r, f);
    forall g | g in files ensures EntryKept(files, r', g) {
      assert EntryKept(files, r, g);
      if files[g].parent.Some? && files[g].dirEnt !in r'.invalid { ListedStays(files, r, r', g); }
    }
  }

  /** What is not taken out of the lists stays. */
  lemma {:induction false} ListedStays(files: Files, r: Records, r': Records, g: nat)
    requires g in files && files[g].parent.Some? && ListedBelow(files, r, g)
    requires forall k :: k in r.listing && r.listing[k] == files[g].dirEnt ==> k in r'.listing && r'.listing[k] == r.listing[k]
    ensures ListedBelow(files, r', g)
  {
    var p := files[g].parent.value;
    var name: Name :| (files[p].dirEnt, name) in r.listing && r.listing[(files[p].dirEnt, name)] == files[g].dirEnt;
    assert (files[p].dirEnt, name) in r'.listing;
  }

  lemma {:induction false} ReleasedAlive(r: Records, d: nat, next: nat)
    requires Alive(r, next)
    ensures Alive(Released(r, d), next)
  {
    var r' := Released(r, d);
    assert forall e: nat :: Gone(r', e) <==> Gone(r, e);
  }

  lemma {:induction false} ReleasedBacked(files: Files, ofileOf: map<nat, nat>, r: Records, f: nat)
    requires f in files && files[f].children == {} && Tree(files) && Entries(files, ofileOf) && Backed(files, ofileOf, r)
    ensures Backed(Closed(files, f), ofileOf - {files[f].dirEnt}, Released(r, files[f].dirEnt))
  {
    hide Closed, EntryKept, Tree, Entries;
    var files', r' := Closed(files, f), Released(r, files[f].dirEnt);
    forall g | g in files' ensures EntryKept(files', r', g) { ReleasedEntry(files, ofileOf, r, f, g); }
  }

  lemma {:induction false} ReleasedEntry(files: Files, ofileOf: map<nat, nat>, r: Records, f: nat, g: nat)
    requires f in files && g in files && g != f && files[f].children == {} && Tree(files) && Entries(files, ofileOf) && EntryKept(files, r, g)
    ensures EntryKept(Closed(files, f), Released(r, files[f].dirEnt), g)
  {
    ClosedAt(files, f);
    hide Closed;
    assert ofileOf[files[g].dirEnt] == g && ofileOf[files[f].dirEnt] == f;
    assert files[g].dirEnt != files[f].dirEnt;
    assert files[g].parent != Some(f);
  }

  lemma {:induction false} ListedKeeps(files: Files, ofileOf: map<nat, nat>, r: Records, dir: nat, name: Name, d: nat)
    requires Backed(files, ofileOf, r) && Alive(r, d) && d != ROOT_DIR_ENT && dir < d && !Gone(r, dir) && (dir, name) !in r.listing
    ensures var r' := Listed(r, dir, name, d); Alive(r', d + 1) && Backed(files, ofileOf, r')
  {
    var r' := Listed(r, dir, name, d);
    forall g | g in files ensures EntryKept(files, r', g) {
      assert EntryKept(files, r, g);
      if files[g].parent.Some? && files[g].dirEnt !in r'.invalid { ListedStays(files, r, r', g); }
    }
  }

  lemma {:induction false} OpenedBacked(files: Files, f: nat, dirEnt: nat, parent: Option<nat>, ofileOf: map<nat, nat>, r: Records)
    requires f !in files && (parent.Some? ==> parent.value in files) && Backed(files, ofileOf, r) && dirEnt !in r.freed
    requires if parent.Some? then dirEnt != ROOT_DIR_ENT && exists name: Name :: (files[parent.value].dirEnt, name) in r.listing && r.listing[(files[parent.value].dirEnt, name)] == dirEnt
             else dirEnt == ROOT_DIR_ENT
    ensures Backed(Opened(files, f, dirEnt, parent), ofileOf[dirEnt := f], r)
  {
    OpenedAt(files, f, dirEnt, parent);
    var files' := Opened(files, f, dirEnt, parent);
    hide Opened;
    forall g | g in files' ensures EntryKept(files', r, g) {
      if g != f { assert EntryKept(files, r, g); }
    }
  }

  lemma {:induction false} OpensBacked(files: Files, f: nat, opens: set<nat>, ofileOf: map<nat, nat>, r: Records)
    requires f in files && Backed(files, ofileOf, r)
    ensures Backed(WithOpens(files, f, opens), ofileOf, r)
  {
    OpensAt(files, f, opens);
    var files' := WithOpens(files, f, opens);
    hide WithOpens;
    forall g | g in files' ensures EntryKept(files', r, g) { assert EntryKept(files, r, g); }
  }

  /** The file of a listed entry is below the directory that lists it. */
  lemma {:induction false} FileOfListed(files: Files, ofileOf: map<nat, nat>, r: Records, next: nat, p: nat, name: Name)
    requires Entries(files, ofileOf) && Backed(files, ofileOf, r) && Alive(r, next)
    requires p in files && (files[p].dirEnt, name) in r.listing && r.listing[(files[p].dirEnt, name)] in ofileOf
    ensures var f := ofileOf[r.listing[(files[p].dirEnt, name)]]; f in files && files[f].parent == Some(p)
  {
    var k := (files[p].dirEnt, name);
    var f := ofileOf[r.listing[k]];
    assert files[f].dirEnt == r.listing[k] && !Gone(r, r.listing[k]);
    assert EntryKept(files, r, f) && ListedBelow(files, r, f);
    var q := files[f].parent.value;
    var n: Name :| (files[q].dirEnt, n) in r.listing && r.listing[(files[q].dirEnt, n)] == files[f].dirEnt;
    assert k == (files[q].dirEnt, n);
    assert ofileOf[files[p].dirEnt] == p && ofileOf[files[q].dirEnt] == q;
  }

  /** A directory above a file that has not been deleted has not been deleted. */
  lemma {:induction false} ParentNotGone(files: Files, ofileOf: map<nat, nat>, r: Records, next: nat, f: nat)
    requires Tree(files) && Backed(files, ofileOf, r) && Alive(r, next) && f in files && files[f].parent.Some? && files[f].dirEnt !in r.invalid
    ensures files[f].parent.value in files && !Gone(r, files[files[f].parent.value].dirEnt)
  {
    assert EntryKept(files, r, f) && ListedBelow(files, r, f);
    var p := files[f].parent.value;
    var n: Name :| (files[p].dirEnt, n) in r.listing && r.listing[(files[p].dirEnt, n)] == files[f].dirEnt;
  }

  lemma {:induction false} MoreAddresses(files: Files, handles: map<nat, nat>, root: Option<nat>, r: Records, next: nat)
    requires Handles(files, handles, next) && Rooted(files, root, next) && Alive(r, next)
    ensures Handles(files, handles, next + 1) && Rooted(files, root, next + 1) && Alive(r, next + 1)
  {
  }

  /** Deleted entries stay deleted, and freed ones freed. */
  ghost predicate Onward(r: Records, r': Records) {
    && (forall d :: d in r.freed ==> d in r'.freed)
    && (forall d :: d in r.invalid ==> Gone(r', d))
  }

  /** Where the entries that were marked have gone: freed with the last file that used them. */
  ghost predicate FreedWith(r: Records, r': Records, ofileOf': map<nat, nat>) {
    && r'.listing == r.listing
    && (forall d :: d in r'.invalid <==> d in r.invalid && d in ofileOf')
    && (forall d :: d in r'.freed <==> d in r.freed || (d in r.invalid && d !in ofileOf'))
  }

  // ----- what one step does to the tree

  /** FatCloseDirEnt: the file leaves the tree. */
  function Closed(files: Files, f: nat): (r: Files)
    requires f in files
    ensures forall g :: g in r <==> g in files && g != f
  {
    map g | g in files && g != f :: if files[f].parent == Some(g) then files[g].(children := files[g].children - {f}) else files[g]
  }

  /** FatOpenDirEnt: a new file below its parent. */
  function Opened(files: Files, f: nat, dirEnt: nat, parent: Option<nat>): (r: Files)
    requires f !in files && (parent.Some? ==> parent.value in files)
    ensures forall g :: g in r <==> g in files || g == f
  {
    map g | g in files.Keys + {f} ::
      if g == f then OFile(dirEnt, parent, {}, {})
      else if parent == Some(g) then files[g].(children := files[g].children + {f}) else files[g]
  }

  function WithOpens(files: Files, f: nat, opens: set<nat>): (r: Files)
    requires f in files
    ensures forall g :: g in r <==> g in files
  {
    files[f := files[f].(opens := opens)]
  }

  lemma {:induction false} ClosedAt(files: Files, f: nat)
    requires f in files
    ensures var r := Closed(files, f);
            forall g :: g in r ==> r[g] == files[g].(children := if files[f].parent == Some(g) then files[g].children - {f} else files[g].children)
  {
  }

  lemma {:induction false} ClosedKeepsTree(files: Files, f: nat)
    requires Tree(files) && f in files && files[f].children == {}
    ensures Tree(Closed(files, f))
  {
    ClosedAt(files, f);
    var r := Closed(files, f);
    hide Closed;
    forall g | g in r && r[g].parent.Some?
      ensures r[g].parent.value in r && g in r[r[g].parent.value].children && r[g].parent.value < g
    {
      assert r[g].parent.value != f;
    }
  }

  lemma {:induction false} ClosedKeepsLinks(files: Files, f: nat, ofileOf: map<nat, nat>, handles: map<nat, nat>, root: Option<nat>, next: nat)
    requires f in files && Unreferenced(files, f)
    requires Entries(files, ofileOf) && Handles(files, handles, next) && Rooted(files, root, next)
    ensures Entries(Closed(files, f), ofileOf - {files[f].dirEnt}) && Handles(Closed(files, f), handles, next)
    ensures Rooted(Closed(files, f), if files[f].parent == None then None else root, next)
  {
    ClosedAt(files, f);
    hide Closed;
  }

  lemma {:induction false} ClosedPending(files: Files, f: nat, checkRef: seq<nat>)
    requires f in files && Unreferenced(files, f) && Tree(files) && Pending(files, checkRef, Some(f)) && f !in checkRef
    ensures Pending(Closed(files, f), checkRef, files[f].parent)
  {
    hide Tree;
    var r := Closed(files, f);
    forall g | g in r && Unreferenced(r, g) ensures g in checkRef || files[f].parent == Some(g) {
      if files[f].parent != Some(g) { assert r[g] == files[g] && Unreferenced(files, g); }
    }
  }

  lemma {:induction false} OpenedAt(files: Files, f: nat, dirEnt: nat, parent: Option<nat>)
    requires f !in files && (parent.Some? ==> parent.value in files)
    ensures var r := Opened(files, f, dirEnt, parent);
            && r[f] == OFile(dirEnt, parent, {}, {})
            && forall g :: g in files ==>
                 r[g] == files[g].(children := if parent == Some(g) then files[g].children + {f} else files[g].children)
  {
  }

  lemma {:induction false} OpenedKeeps(files: Files, f: nat, dirEnt: nat, parent: Option<nat>, ofileOf: map<nat, nat>, handles: map<nat, nat>, root: Option<nat>, checkRef: seq<nat>)
    requires f !in files && (if parent.Some? then parent.value in files else root == None) && dirEnt !in ofileOf && Tree(files)
    requires Entries(files, ofileOf) && Handles(files, handles, f) && Rooted(files, root, f) && Pending(files, checkRef, None)
    ensures var r := Opened(files, f, dirEnt, parent);
            && Tree(r) && Entries(r, ofileOf[dirEnt := f]) && Handles(r, handles, f + 1)
            && Rooted(r, if parent == None then Some(f) else root, f + 1) && Pending(r, [f] + checkRef, None)
  {
    hide Tree, Entries, Handles, Pending, Opened;
    OpenedKeepsTree(files, f, dirEnt, parent);
    OpenedKeepsEntries(files, f, dirEnt, parent, ofileOf);
    OpenedKeepsHandles(files, f, dirEnt, parent, handles);
    OpenedKeepsPending(files, f, dirEnt, parent, checkRef);
    OpenedAt(files, f, dirEnt, parent);
  }

  lemma {:induction false} OpenedKeepsEntries(files: Files, f: nat, dirEnt: nat, parent: Option<nat>, ofileOf: map<nat, nat>)
    requires f !in files && (parent.Some? ==> parent.value in files) && dirEnt !in ofileOf && Entries(files, ofileOf)
    ensures Entries(Opened(files, f, dirEnt, parent), ofileOf[dirEnt := f])
  {
    OpenedAt(files, f, dirEnt, parent);
    hide Opened;
  }

  lemma {:induction false} OpenedKeepsHandles(files: Files, f: nat, dirEnt: nat, parent: Option<nat>, handles: map<nat, nat>)
    requires f !in files && (parent.Some? ==> parent.value in files) && Handles(files, handles, f)
    ensures Handles(Opened(files, f, dirEnt, parent), handles, f + 1)
  {
    OpenedAt(files, f, dirEnt, parent);
    hide Opened;
  }

  lemma {:induction false} OpenedKeepsPending(files: Files, f: nat, dirEnt: nat, parent: Option<nat>, checkRef: seq<nat>)
    requires f !in files && (parent.Some? ==> parent.value in files) && Pending(files, checkRef, None)
    ensures Pending(Opened(files, f, dirEnt, parent), [f] + checkRef, None)
  {
    OpenedAt(files, f, dirEnt, parent);
    var r := Opened(files, f, dirEnt, parent);
    hide Opened;
    assert f !in checkRef;
    forall g | g in r && Unreferenced(r, g) ensures g in [f] + checkRef {
      if g != f { assert parent != Some(g) ==> Unreferenced(files, g); }
    }
  }

  lemma {:induction false} OpenedKeepsTree(files: Files, f: nat, dirEnt: nat, parent: Option<nat>)
    requires f !in files && (parent.Some? ==> parent.value in files) && Tree(files) && forall g :: g in files ==> g < f
    ensures Tree(Opened(files, f, dirEnt, parent))
  {
    OpenedAt(files, f, dirEnt, parent);
    var r := Opened(files, f, dirEnt, parent);
    hide Opened;
    forall g, c | g in r && c in r[g].children ensures c in r && r[c].parent == Some(g) {
      if c != f { assert c in files[g].children; }
    }
  }

  lemma {:induction false} OpensAt(files: Files, f: nat, opens: set<nat>)
    requires f in files
    ensures var r := WithOpens(files, f, opens);
            forall g :: g in files ==> r[g] == files[g].(opens := if g == f then opens else files[g].opens)
  {
  }

  lemma {:induction false} OpensKeeps(files: Files, f: nat, opens: set<nat>, ofileOf: map<nat, nat>, root: Option<nat>, next: nat)
    requires f in files && Tree(files) && Entries(files, ofileOf) && Rooted(files, root, next)
    ensures var r := WithOpens(files, f, opens); Tree(r) && Entries(r, ofileOf) && Rooted(r, root, next)
  {
    OpensKeepsTree(files, f, opens);
    OpensKeepsEntries(files, f, opens, ofileOf);
    OpensAt(files, f, opens);
    hide Tree, Entries, WithOpens;
  }

  lemma {:induction false} OpensKeepsEntries(files: Files, f: nat, opens: set<nat>, ofileOf: map<nat, nat>)
    requires f in files && Entries(files, ofileOf)
    ensures Entries(WithOpens(files, f, opens), ofileOf)
  {
    OpensAt(files, f, opens);
    hide WithOpens;
  }

  lemma {:induction false} OpensKeepsTree(files: Files, f: nat, opens: set<nat>)
    requires f in files && Tree(files)
    ensures Tree(WithOpens(files, f, opens))
  {
    OpensAt(files, f, opens);
    hide WithOpens;
  }

  lemma {:induction false} HandleAdded(files: Files, f: nat, handles: map<nat, nat>, checkRef: seq<nat>, h: nat)
    requires f in files && Handles(files, handles, h) && Pending(files, checkRef, None)
    ensures var r := WithOpens(files, f, files[f].opens + {h});
            Handles(r, handles[h := f], h + 1) && Pending(r, checkRef, None)
  {
    var r := WithOpens(files, f, files[f].opens + {h});
    assert h !in handles;
    assert forall g :: g in files && g != f ==> r[g] == files[g];
  }

  lemma {:induction false} HandleRemoved(files: Files, handles: map<nat, nat>, checkRef: seq<nat>, h: nat, next: nat)
    requires h in handles && Handles(files, handles, next) && Pending(files, checkRef, None)
    ensures var f := handles[h];
            && f in files
            && var r := WithOpens(files, f, files[f].opens - {h});
               Handles(r, handles - {h}, next) && Pending(r, if f in checkRef then checkRef else [f] + checkRef, None)
  {
    var f := handles[h];
    var r := WithOpens(files, f, files[f].opens - {h});
    assert forall g :: g in files && g != f ==> r[g] == files[g];
    forall g | g in r && Unreferenced(r, g) ensures g in checkRef || g == f {
      if g != f { assert Unreferenced(files, g); }
    }
  }

  /** The files that are left: same parents, same handles. */
  ghost predicate PartOf(part: Files, files: Files) {
    && (forall f :: f in part ==> f in files && part[f].parent == files[f].parent && part[f].opens == files[f].opens && part[f].dirEnt == files[f].dirEnt)
    && forall f :: f in files && files[f].opens != {} ==> f in part
  }

  lemma {:induction false} SameAncestors(part: Files, files: Files, f: nat, g: nat)
    requires PartOf(part, files) && Tree(part) && Tree(files) && g in part
    ensures AtOrAbove(part, f, g) == AtOrAbove(files, f, g)
    ensures AtOrAbove(part, f, g) ==> f in part
    decreases g
  {
    if f != g && files[g].parent.Some? { SameAncestors(part, files, f, files[g].parent.value); }
  }

  /** Nothing with an open handle at or below it has been freed. */
  lemma {:induction false} BusyIsKept(part: Files, files: Files, f: nat)
    requires PartOf(part, files) && Tree(part) && Tree(files)
    ensures Busy(files, f) ==> f in part
    ensures Busy(part, f) ==> Busy(files, f)
  {
    if Busy(files, f) {
      var g :| g in files && files[g].opens != {} && AtOrAbove(files, f, g);
      SameAncestors(part, files, f, g);
    }
    if Busy(part, f) {
      var g :| g in part && part[g].opens != {} && AtOrAbove(part, f, g);
      SameAncestors(part, files, f, g);
    }
  }

  lemma {:induction false} AboveChild(files: Files, f: nat, c: nat, g: nat)
    requires Tree(files) && f in files && c in files[f].children && g in files && AtOrAbove(files, c, g)
    ensures AtOrAbove(files, f, g)
    decreases g
  {
    if c != g { AboveChild(files, f, c, files[g].parent.value); }
  }

  /** If no file is unreferenced, every file has an open handle at or below it. */
  lemma {:induction false} AllBusy(files: Files, limit: nat, f: nat)
    requires Tree(files) && f in files && forall g :: g in files ==> g < limit && !Unreferenced(files, g)
    ensures Busy(files, f)
    decreases limit - f
  {
    if files[f].opens == {} {
      var c :| c in files[f].children;
      assert files[c].parent == Some(f) && f < c;
      AllBusy(files, limit, c);
      var g :| g in files && files[g].opens != {} && AtOrAbove(files, c, g);
      AboveChild(files, f, c, g);
    } else {
      assert AtOrAbove(files, f, f);
    }
  }

  predicate NoDuplicates(s: seq<nat>) {
    forall i, j :: 0 <= i < j < |s| ==> s[i] != s[j]
  }

  function Without(s: seq<nat>, x: nat): (r: seq<nat>)
    ensures forall y :: y in r <==> y in s && y != x
    ensures |r| <= |s| && (x in s ==> |r| < |s|) && (NoDuplicates(s) ==> NoDuplicates(r))
  {
    if s == [] then []
    else
      var r := Without(s[1..], x);
      assert NoDuplicates(s) ==> NoDuplicates(s[1..]) && s[0] !in s[1..];
      assert forall y :: y in s <==> y == s[0] || y in s[1..];
      if s[0] == x then r else [s[0]] + r
  }

  /** The files after a handle has been closed. */
  function Left(files: Files, handles: map<nat, nat>, h: nat): Files {
    if h in handles && handles[h] in files then WithOpens(files, handles[h], files[handles[h]].opens - {h}) else files
  }

  /** Opening only adds files and handles. */
  ghost predicate Grew(files: Files, files': Files) {
    forall g :: g in files ==> g in files' && files'[g].parent == files[g].parent && files[g].opens <= files'[g].opens
  }

  lemma {:induction false} GrewAncestors(files: Files, files': Files, f: nat, g: nat)
    requires Grew(files, files') && g in files && AtOrAbove(files, f, g)
    ensures AtOrAbove(files', f, g)
    decreases g
  {
    if f != g { GrewAncestors(files, files', f, files[g].parent.value); }
  }

  lemma {:induction false} BusyStays(files: Files, files': Files, f: nat)
    requires Grew(files, files') && Busy(files, f)
    ensures Busy(files', f)
  {
    var g :| g in files && files[g].opens != {} && AtOrAbove(files, f, g);
    GrewAncestors(files, files', f, g);
    var h :| h in files[g].opens;
    assert h in files'[g].opens;
  }

  lemma {:induction false} OpenedGrew(files: Files, f: nat, dirEnt: nat, parent: Option<nat>)
    requires f !in files && (parent.Some? ==> parent.value in files)
    ensures Grew(files, Opened(files, f, dirEnt, parent))
  {
  }

  lemma {:induction false} GrewTransitive(a: Files, b: Files, c: Files)
    requires Grew(a, b) && Grew(b, c)
    ensures Grew(a, c)
  {
  }

  /**
   One component of a path: a name, "..", a leading separator, or one that is turned down (not a valid name, or
   below a file that is not a directory). `onDisk` says that FatSearchODir finds the name among the entries it
   has still to load.
   */
  datatype Component = Down(name: Name, onDisk: bool) | Up | ToRoot | Refused

  /** One component leads from the directory entry `d` to `e`, by the lists of the directories alone. */
  ghost predicate Step(r: Records, d: nat, c: Component, e: nat) {
    match c
    case Down(name, _) => (d, name) in r.listing && r.listing[(d, name)] == e
    case Up => exists name: Name :: (e, name) in r.listing && r.listing[(e, name)] == d
    case ToRoot => e == ROOT_DIR_ENT
    case Refused => false
  }

  /** From the directory entry `d` the path names the entry `e`. */
  ghost predicate Names(r: Records, d: nat, path: seq<Component>, e: nat)
    decreases |path|
  {
    if path == [] then e == d
    else
      var front, last := path[..|path| - 1], path[|path| - 1];
      exists via: nat :: Names(r, d, front, via) && Step(r, via, last, e)
  }

  /** The walk has come to `e` and the component cannot be followed from there. */
  ghost predicate StuckAt(r: Records, e: nat, c: Component) {
    match c
    case Down(name, onDisk) => (e, name) !in r.listing && !onDisk
    case Up => e == ROOT_DIR_ENT
    case ToRoot => false
    case Refused => true
  }

  /** After `i` components the path cannot be followed; a last name that is missing counts if `whole` is set. */
  ghost predicate Blocked(r: Records, d: nat, path: seq<Component>, whole: bool) {
    exists i: nat, e: nat :: i < |path| && Names(r, d, path[..i], e) && StuckAt(r, e, path[i]) && (whole || i + 1 < |path| || !path[i].Down?)
  }

  /** A path names at most one entry. */
  lemma {:induction false} NamesOne(r: Records, next: nat, d: nat, path: seq<Component>, e: nat, e': nat)
    requires Alive(r, next) && Names(r, d, path, e) && Names(r, d, path, e')
    ensures e == e'
    decreases |path|
  {
    if path != [] {
      var n := |path| - 1;
      var via: nat :| Names(r, d, path[..n], via) && Step(r, via, path[n], e);
      var via': nat :| Names(r, d, path[..n], via') && Step(r, via', path[n], e');
      NamesOne(r, next, d, path[..n], via, via');
      if path[n].Up? {
        var name: Name :| (e, name) in r.listing && r.listing[(e, name)] == via;
        var name': Name :| (e', name') in r.listing && r.listing[(e', name')] == via;
        assert (e, name) == (e', name');
      }
    }
  }

  ghost predicate ListsMore(r: Records, r': Records) {
    forall k :: k in r.listing ==> k in r'.listing && r'.listing[k] == r.listing[k]
  }

  lemma {:induction false} NamesStays(r: Records, r': Records, d: nat, path: seq<Component>, e: nat)
    requires Names(r, d, path, e) && ListsMore(r, r')
    ensures Names(r', d, path, e)
    decreases |path|
  {
    if path != [] {
      var n := |path| - 1;
      var via: nat :| Names(r, d, path[..n], via) && Step(r, via, path[n], e);
      NamesStays(r, r', d, path[..n], via);
      if path[n].Up? {
        var name: Name :| (e, name) in r.listing && r.listing[(e, name)] == via;
        assert (e, name) in r'.listing && r'.listing[(e, name)] == via;
      }
      assert Step(r', via, path[n], e);
    }
  }

  lemma {:induction false} NamesNext(r: Records, d: nat, path: seq<Component>, i: nat, via: nat, e: nat)
    requires i < |path| && Names(r, d, path[..i], via) && Step(r, via, path[i], e)
    ensures Names(r, d, path[..i + 1], e)
  {
    assert path[..i + 1][..i] == path[..i] && path[..i + 1][i] == path[i];
  }

  lemma {:induction false} NamesItself(r: Records, d: nat, path: seq<Component>)
    ensures Names(r, d, path[..0], d)
  {
  }

  lemma {:induction false} StepsToRoot(r: Records, d: nat)
    ensures Step(r, d, ToRoot, ROOT_DIR_ENT)
  {
  }

  lemma {:induction false} StepsDown(r: Records, d: nat, name: Name, onDisk: bool)
    requires (d, name) in r.listing
    ensures Step(r, d, Down(name, onDisk), r.listing[(d, name)])
  {
  }

  /** A name that has just been listed completes the path. */
  lemma {:induction false} LastStep(r: Records, r': Records, d: nat, path: seq<Component>, via: nat, name: Name, e: nat)
    requires path != [] && path[|path| - 1] == Down(name, false) && Names(r, d, path[..|path| - 1], via)
    requires ListsMore(r, r') && (via, name) in r'.listing && r'.listing[(via, name)] == e
    ensures Names(r', d, path, e)
  {
    var n := |path| - 1;
    NamesStays(r, r', d, path[..n], via);
    NamesNext(r', d, path, n, via, e);
    assert path[..n + 1] == path;
  }

  lemma {:induction false} BlockedAtEnd(r: Records, d: nat, path: seq<Component>, e: nat, name: Name)
    requires path != [] && path[|path| - 1] == Down(name, false) && Names(r, d, path[..|path| - 1], e) && (e, name) !in r.listing
    ensures Blocked(r, d, path, true)
  {
    assert StuckAt(r, e, path[|path| - 1]);
  }

  lemma {:induction false} BlockedAnyway(r: Records, d: nat, path: seq<Component>, whole: bool)
    requires Blocked(r, d, path, false)
    ensures Blocked(r, d, path, whole)
  {
  }

  /** What only depends on the lists stays when other things change. */
  lemma {:induction false} SameLists(r: Records, r': Records, d: nat, path: seq<Component>, whole: bool)
    requires r'.listing == r.listing
    ensures forall e: nat :: Names(r, d, path, e) ==> Names(r', d, path, e)
    ensures Blocked(r, d, path, whole) ==> Blocked(r', d, path, whole)
  {
    forall e: nat | Names(r, d, path, e) ensures Names(r', d, path, e) { NamesStays(r, r', d, path, e); }
    if Blocked(r, d, path, whole) {
      var i: nat, e: nat :| i < |path| && Names(r, d, path[..i], e) && StuckAt(r, e, path[i]) && (whole || i + 1 < |path| || !path[i].Down?);
      NamesStays(r, r', d, path[..i], e);
      assert StuckAt(r', e, path[i]);
    }
  }

  /** As long as any file is open the root is. */
  lemma {:induction false} RootIsOpen(files: Files, root: Option<nat>, next: nat, f: nat)
    requires Tree(files) && Rooted(files, root, next) && f in files
    ensures root.Some? && root.value in files
    decreases f
  {
    if files[f].parent.Some? { RootIsOpen(files, root, next, files[f].parent.value); }
  }

  /** The part of FAT_VOLUME that keeps track of open files. */
  class VolumeFiles {
    var files: Files                    // the FAT_OFILEs that have not been freed
    var ofileOf: map<nat, nat>          // DirEnt->OFile
    var records: Records                // the FAT_DIRENTs
    var handles: map<nat, nat>          // IFile->OFile
    var checkRef: seq<nat>              // Volume->CheckRef
    var root: Option<nat>               // Volume->Root
    var next: nat                       // the next fresh address

    /** The links agree, and unreferenced files, but for one, are on the check list. */
    ghost predicate Linked(except: Option<nat>)
      reads this
    {
      && Tree(files) && Entries(files, ofileOf) && Handles(files, handles, next) && Rooted(files, root, next)
      && Pending(files, checkRef, except) && Alive(records, next) && Backed(files, ofileOf, records) && next > ROOT_DIR_ENT
      && forall f :: f in files ==> files[f].dirEnt < next
    }

    ghost predicate Valid()
      reads this
    {
      Linked(None)
    }

    /** Between two calls of the file protocol: nothing to check, and only files somebody needs. */
    ghost predicate Settled()
      reads this
    {
      Valid() && checkRef == [] && forall f :: f in files ==> Busy(files, f)
    }

    constructor ()
      ensures Settled() && files == map[] && handles == map[] && ofileOf == map[] && records == Records(map[], {}, {})
    {
      files, ofileOf, handles, checkRef, root, next := map[], map[], map[], [], None, ROOT_DIR_ENT + 1;
      records := Records(map[], {}, {});
    }

    /** The directory `parent` lists the entry, or it is the root's. */
    ghost predicate CanOpen(parent: Option<nat>, dirEnt: nat)
      reads this
    {
      if parent == None then dirEnt == ROOT_DIR_ENT
      else parent.value in files && exists name: Name ::
             (files[parent.value].dirEnt, name) in records.listing && records.listing[(files[parent.value].dirEnt, name)] == dirEnt
    }

    /** FatOpenDirEnt: the file of a directory entry, opened below `parent` if it is not open yet. */
    method OpenDirEnt(parent: Option<nat>, dirEnt: nat) returns (f: nat)
      requires Valid() && CanOpen(parent, dirEnt)
      modifies this
      ensures Valid() && f in files && files[f].dirEnt == dirEnt && files[f].parent == parent && handles == old(handles) && records == old(records)
      ensures next >= old(next)
      ensures dirEnt in old(ofileOf) ==> f == old(ofileOf)[dirEnt] && files == old(files) && checkRef == old(checkRef)
      ensures dirEnt !in old(ofileOf) ==>
        f !in old(files) && (parent.Some? ==> parent.value in old(files)) && files == Opened(old(files), f, dirEnt, parent)
    {
      hide Tree, Handles, Pending, Alive, Backed, CanOpen, Rooted, Opened;
      CanOpenIsAlive(parent, dirEnt);
      if dirEnt in ofileOf {
        OpenedHas(files, ofileOf, dirEnt);
        return ofileOf[dirEnt];
      }
      hide Entries;
      f := next;
      NewFile(parent, dirEnt);
      OpenedAt(files, f, dirEnt, parent);
      next := next + 1;
      if parent == None {
        root := Some(f);
      }
      files := Opened(files, f, dirEnt, parent);
      checkRef := [f] + checkRef;
      ofileOf := ofileOf[dirEnt := f];
    }

    /** The new file with the next address keeps everything. */
    lemma {:induction false} NewFile(parent: Option<nat>, dirEnt: nat)
      requires Valid() && CanOpen(parent, dirEnt) && dirEnt !in ofileOf
      ensures next !in files && (parent.Some? ==> parent.value in files) && Alive(records, next + 1)
      ensures var r := Opened(files, next, dirEnt, parent);
              && Tree(r) && Entries(r, ofileOf[dirEnt := next]) && Handles(r, handles, next + 1) && Backed(r, ofileOf[dirEnt := next], records)
              && Rooted(r, if parent == None then Some(next) else root, next + 1) && Pending(r, [next] + checkRef, None)
    {
      hide Tree, Handles, Pending, Entries, Alive, Backed, CanOpen, Opened, Rooted;
      CanOpenIsAlive(parent, dirEnt);
      CanOpenParent(parent, dirEnt);
      MoreRooted(files, root, records, next);
      OpenedKeeps(files, next, dirEnt, parent, ofileOf, handles, root, checkRef);
      OpenedCanOpen(next, parent, dirEnt);
    }

    lemma {:induction false} CanOpenParent(parent: Option<nat>, dirEnt: nat)
      requires CanOpen(parent, dirEnt)
      ensures parent.Some? ==> parent.value in files
    {
    }

    lemma {:induction false} CanOpenIsAlive(parent: Option<nat>, dirEnt: nat)
      requires Valid() && CanOpen(parent, dirEnt)
      ensures !Gone(records, dirEnt) && dirEnt < next && (parent == None <==> dirEnt == ROOT_DIR_ENT)
      ensures parent == None && dirEnt !in ofileOf ==> root == None
      ensures dirEnt in ofileOf ==> ofileOf[dirEnt] in files && files[ofileOf[dirEnt]].parent == parent
    {
      if root.Some? { assert EntryKept(files, records, root.value); }
      if dirEnt in ofileOf { assert EntryKept(files, records, ofileOf[dirEnt]); }
      if parent.Some? {
        var name: Name :| (files[parent.value].dirEnt, name) in records.listing && records.listing[(files[parent.value].dirEnt, name)] == dirEnt;
        if dirEnt in ofileOf { FileOfListed(files, ofileOf, records, next, parent.value, name); }
      }
    }

    lemma {:induction false} OpenedCanOpen(f: nat, parent: Option<nat>, dirEnt: nat)
      requires Valid() && CanOpen(parent, dirEnt) && f !in files && dirEnt !in ofileOf
      ensures (parent.Some? ==> parent.value in files) && Backed(Opened(files, f, dirEnt, parent), ofileOf[dirEnt := f], records)
    {
      CanOpenIsAlive(parent, dirEnt);
      OpenedBacked(files, f, dirEnt, parent, ofileOf, records);
    }

    /** FatSearchODir: the entry with the name, from the list of the directory or newly loaded. */
    method SearchODir(f: nat, name: Name, onDisk: bool) returns (r: Option<nat>)
      requires Valid() && f in files && !Gone(records, files[f].dirEnt)
      modifies this`records, this`next
      ensures Valid() && next >= old(next) && Onward(old(records), records) && records.freed == old(records).freed && records.invalid == old(records).invalid
      ensures r.Some? <==> (files[f].dirEnt, name) in old(records).listing || onDisk
      ensures r.Some? ==> CanOpen(Some(f), r.value) && (files[f].dirEnt, name) in records.listing && r.value == records.listing[(files[f].dirEnt, name)]
      ensures r.None? ==> records == old(records)
      ensures ListsMore(old(records), records)
    {
      hide Tree, Handles, Pending, Entries, Alive, Backed, Rooted;
      var key := (files[f].dirEnt, name);
      if key in records.listing {
        return Some(records.listing[key]);
      }
      if !onDisk {
        return None;
      }
      var d := NewDirEnt(f, name);
      r := Some(d);
    }

    /** A new FAT_DIRENT in the list of the directory `f`: FatCreateDirEnt, or an entry loaded from the disk. */
    method NewDirEnt(f: nat, name: Name) returns (d: nat)
      requires Valid() && f in files && !Gone(records, files[f].dirEnt) && (files[f].dirEnt, name) !in records.listing
      modifies this`records, this`next
      ensures Valid() && d == old(next) < next && records == Listed(old(records), files[f].dirEnt, name, d)
      ensures CanOpen(Some(f), d) && d !in ofileOf
    {
      hide Tree, Handles, Pending, Entries, Alive, Backed, Rooted;
      EntriesBelowNext();
      d := next;
      ListedKeeps(files, ofileOf, records, files[f].dirEnt, name, d);
      MoreAddresses(files, handles, root, records, next);
      records := Listed(records, files[f].dirEnt, name, d);
      next := next + 1;
    }

    lemma {:induction false} EntriesBelowNext()
      requires Valid()
      ensures forall d :: d in ofileOf ==> d < next
    {
    }

    /** FatRemoveDirEnt: the entry leaves the list of its directory and is marked. */
    method RemoveDirEnt(f: nat)
      requires Valid() && f in files && files[f].parent.Some? && files[f].dirEnt !in records.invalid
      requires forall k :: k in records.listing ==> k.0 != files[f].dirEnt
      modifies this`records
      ensures Valid() && records == Removed(old(records), files[f].dirEnt) && Onward(old(records), records)
    {
      hide Tree, Handles, Pending, Entries, Alive, Backed, Rooted;
      RemovedKeeps(files, ofileOf, records, f, next);
      records := Removed(records, files[f].dirEnt);
    }

    /** FatAllocateIFile: one more handle. */
    method AllocateIFile(f: nat) returns (h: nat)
      requires Valid() && f in files
      modifies this`files, this`handles, this`next
      ensures Valid() && h !in old(handles) && handles == old(handles)[h := f]
      ensures files == WithOpens(old(files), f, old(files)[f].opens + {h})
    {
      hide Tree, Handles, Pending, Entries, Rooted, Alive, Backed;
      OpensKeeps(files, f, files[f].opens + {next}, ofileOf, root, next);
      OpensBacked(files, f, files[f].opens + {next}, ofileOf, records);
      HandleAdded(files, f, handles, checkRef, next);
      FreshHandle(files, handles, next);
      h := next;
      handles := handles[h := f];
      files := WithOpens(files, f, files[f].opens + {h});
      MoreRooted(files, root, records, next);
      next := next + 1;
    }

    /** FatIFileClose: the handle goes, its file is put on the check list. */
    method IFileClose(h: nat)
      requires Valid() && h in handles
      modifies this`files, this`handles, this`checkRef
      ensures Valid() && handles == old(handles) - {h} && old(handles)[h] in old(files)
      ensures var f := old(handles)[h]; files == WithOpens(old(files), f, old(files)[f].opens - {h})
    {
      hide Tree, Handles, Pending, Entries, Rooted, Alive, Backed;
      HandleRemoved(files, handles, checkRef, h, next);
      var f := handles[h];
      OpensKeeps(files, f, files[f].opens - {h}, ofileOf, root, next);
      OpensBacked(files, f, files[f].opens - {h}, ofileOf, records);
      handles := handles - {h};
      files := WithOpens(files, f, files[f].opens - {h});
      if f !in checkRef {
        checkRef := [f] + checkRef;
      }
    }

    /** FatCloseDirEnt: the FAT_OFILE is freed, and with it an entry that has been deleted. */
    method CloseDirEnt(f: nat)
      requires Linked(Some(f)) && f in files && Unreferenced(files, f) && f !in checkRef
      modifies this`files, this`ofileOf, this`root, this`records
      ensures Linked(old(files)[f].parent) && files == Closed(old(files), f)
      ensures ofileOf == old(ofileOf) - {old(files)[f].dirEnt} && records == Released(old(records), old(files)[f].dirEnt)
    {
      hide Tree, Handles, Pending, Entries, Rooted, Alive, Backed;
      ClosedKeepsTree(files, f);
      ClosedKeepsLinks(files, f, ofileOf, handles, root, next);
      ClosedPending(files, f, checkRef);
      ReleasedAlive(records, files[f].dirEnt, next);
      ReleasedBacked(files, ofileOf, records, f);
      ClosedAt(files, f);
      var d, p := files[f].dirEnt, files[f].parent;
      files := Closed(files, f);
      ofileOf := ofileOf - {d};
      if p == None {
        root := None;
      }
      records := Released(records, d);
    }

    /** FatCheckOFileRef: off the check list, and freed if neither a handle nor a child needs it. */
    method CheckOFileRef(f: nat) returns (freed: bool)
      requires Linked(Some(f)) && f in files
      modifies this`files, this`ofileOf, this`root, this`checkRef, this`records
      ensures freed == Unreferenced(old(files), f) && checkRef == Without(old(checkRef), f)
      ensures files == if freed then Closed(old(files), f) else old(files)
      ensures ofileOf == if freed then old(ofileOf) - {old(files)[f].dirEnt} else old(ofileOf)
      ensures records == if freed then Released(old(records), old(files)[f].dirEnt) else old(records)
      ensures Linked(if freed then old(files)[f].parent else None)
    {
      hide Tree, Handles, Pending, Entries, Rooted, Alive, Backed;
      OffTheList(files, checkRef, f);
      checkRef := Without(checkRef, f);
      if files[f].opens != {} || files[f].children != {} {
        return false;
      }
      CloseDirEnt(f);
      freed := true;
    }

    /** The inner loop of FatCheckVolumeRef: up the tree from `start` as long as files are freed. */
    method CheckUpwards(start: nat)
      requires Valid() && start in checkRef
      modifies this`files, this`ofileOf, this`root, this`checkRef, this`records
      ensures Valid() && PartOf(files, old(files)) && FreedWith(old(records), records, ofileOf)
      ensures forall d :: d in ofileOf ==> d in old(ofileOf) && ofileOf[d] == old(ofileOf)[d]
      ensures |files| <= |old(files)| && |checkRef| <= |old(checkRef)| && (|files| < |old(files)| || |checkRef| < |old(checkRef)|)
    {
      var parent: Option<nat> := Some(start);
      StartsFreed(files, ofileOf, records);
      hide Handles, Pending, Entries, Rooted, Alive, Backed, FreedWith;
      StartPending(files, checkRef, start);
      while parent != None
        invariant Linked(parent) && PartOf(files, old(files)) && FreedWith(old(records), records, ofileOf)
        invariant forall d :: d in ofileOf ==> d in old(ofileOf) && ofileOf[d] == old(ofileOf)[d]
        invariant parent.Some? ==> parent.value in files
        invariant |files| <= |old(files)| && |checkRef| <= |old(checkRef)|
        invariant (parent == Some(start) && files == old(files) && checkRef == old(checkRef)) || |files| < |old(files)|
        decreases |files|
      {
        var f := parent.value;
        parent := files[f].parent;
        ghost var before, of0, r0 := files, ofileOf, records;
        EntryOf(files, ofileOf, f);
        var freed := CheckOFileRef(f);
        if !freed {
          break;
        }
        ClosedIsPart(before, old(files), f);
        FreedOneMore(old(records), r0, of0, before[f].dirEnt);
      }
    }

    /** FatCheckVolumeRef: afterwards exactly the files with an open handle at or below them are left. */
    method CheckVolumeRef()
      requires Valid()
      modifies this`files, this`ofileOf, this`root, this`checkRef, this`records
      ensures Settled() && FreedWith(old(records), records, ofileOf)
      ensures forall d :: d in ofileOf ==> d in old(ofileOf) && ofileOf[d] == old(ofileOf)[d]
      ensures forall f :: f in files <==> f in old(files) && Busy(old(files), f)
      ensures PartOf(files, old(files))
    {
      StartsAsPart(files);
      StartsFreed(files, ofileOf, records);
      while checkRef != []
        invariant Valid() && PartOf(files, old(files)) && FreedWith(old(records), records, ofileOf)
        invariant forall d :: d in ofileOf ==> d in old(ofileOf) && ofileOf[d] == old(ofileOf)[d]
        decreases |files| + |checkRef|
      {
        hide Handles, Entries, Rooted, Tree, PartOf, Alive, Backed, FreedWith;
        ghost var before, of0, r0 := files, ofileOf, records;
        CheckUpwards(checkRef[0]);
        PartTransitive(files, before, old(files));
        FreedTransitive(old(records), r0, records, of0, ofileOf);
      }
      NothingPending(files);
      hide Handles, Entries, Tree, PartOf, Busy, Alive, Backed, FreedWith;
      forall f | f in files ensures Busy(files, f) { AllBusy(files, next, f); }
      forall f ensures f in files <==> f in old(files) && Busy(old(files), f) { BusyIsKept(files, old(files), f); }
    }

    /**
     No open file refers to a freed entry; a deleted entry that has not been freed belongs to an open file; and
     no directory lists a deleted entry.
     */
    lemma {:induction false} EntriesInUse()
      requires Valid()
      ensures forall f :: f in files ==> files[f].dirEnt !in records.freed
      ensures forall d :: d in records.invalid ==> d in ofileOf && ofileOf[d] in files && files[ofileOf[d]].dirEnt == d
      ensures forall k :: k in records.listing ==> !Gone(records, records.listing[k])
    {
      forall f | f in files ensures files[f].dirEnt !in records.freed { assert EntryKept(files, records, f); }
    }

    /** FatOpenVolume: a handle on the root, whose directory entry belongs to the volume itself. */
    method OpenVolume() returns (h: nat)
      requires Settled()
      modifies this
      ensures Settled() && h !in old(handles) && h in handles && handles == old(handles)[h := handles[h]]
      ensures handles[h] in files && files[handles[h]].dirEnt == ROOT_DIR_ENT
      ensures forall f :: f in old(files) ==> f in files
      ensures Onward(old(records), records)
    {
      hide Tree, Handles, Pending, Entries, Rooted, Busy, PartOf, Grew, Opened, Alive, Backed;
      ghost var before := files;
      StartsGrown(files);
      var f := OpenDirEnt(None, ROOT_DIR_ENT);
      if ROOT_DIR_ENT !in old(ofileOf) { OpenedGrew(before, f, ROOT_DIR_ENT, None); }
      h := HandleAndClean(f, before);
    }

    /** The end of an open that succeeds: a handle, then the check of all files the walk has opened. */
    method HandleAndClean(f: nat, ghost before: Files) returns (h: nat)
      requires Valid() && f in files && Grew(before, files) && forall g :: g in before ==> Busy(before, g)
      modifies this
      ensures Settled() && h !in old(handles) && handles == old(handles)[h := f]
      ensures f in files && files[f].dirEnt == old(files)[f].dirEnt
      ensures forall g :: g in before ==> g in files
      ensures FreedWith(old(records), records, ofileOf) && Onward(old(records), records)
    {
      hide Handles, Pending, Entries, Rooted, Busy, PartOf, Tree, Alive, Backed;
      h := AllocateIFile(f);
      assert Grew(before, files);
      ghost var now := files;
      NewHandleIsBusy(files, f, h);
      forall g | g in before ensures Busy(now, g) { BusyStays(before, now, g); }
      CheckVolumeRef();
      PartSame(files, now, f);
    }

    /** The directory entry of the root and of a directory above a file that is not deleted. */
    lemma {:induction false} UpIsAlive(f: nat)
      requires Valid() && f in files && !Gone(records, files[f].dirEnt)
      ensures files[f].parent.Some? ==> files[f].parent.value in files && !Gone(records, files[files[f].parent.value].dirEnt)
      ensures root.Some? && root.value in files && !Gone(records, files[root.value].dirEnt)
    {
      RootIsOpen(files, root, next, f);
      assert EntryKept(files, records, root.value);
      if files[f].parent.Some? { ParentNotGone(files, ofileOf, records, next, f); }
    }

    /** Lists only grow; nothing is deleted or freed. */
    ghost predicate Loaded(r: Records)
      reads this
    {
      records.invalid == r.invalid && records.freed == r.freed && ListsMore(r, records)
    }

    /** The steps of the walk are those of the path. */
    lemma {:induction false} UpNames(f: nat)
      requires Valid() && f in files && !Gone(records, files[f].dirEnt)
      ensures files[f].parent.Some? ==> files[f].parent.value in files && Step(records, files[f].dirEnt, Up, files[files[f].parent.value].dirEnt)
      ensures files[f].parent.None? ==> files[f].dirEnt == ROOT_DIR_ENT
      ensures root.Some? && root.value in files && files[root.value].dirEnt == ROOT_DIR_ENT
    {
      assert EntryKept(files, records, f);
      RootIsOpen(files, root, next, f);
      assert EntryKept(files, records, root.value);
      if files[f].parent.Some? { assert ListedBelow(files, records, f); }
    }

    /**
     The walk of FatLocateOFile from the file `start` along `path`: to the file of the entry the path names. The
     last name may be left over, if the directory the rest of the path names does not have it; otherwise the
     walk fails exactly where the path cannot be followed. It reaches no deleted file.
     */
    method LocateOFile(start: nat, path: seq<Component>) returns (ok: bool, f: nat, rest: Option<Name>)
      requires Valid() && start in files && !Gone(records, files[start].dirEnt)
      modifies this
      ensures Valid() && f in files && handles == old(handles) && Grew(old(files), files) && next >= old(next)
      ensures !Gone(records, files[f].dirEnt) && Loaded(old(records))
      ensures ok && rest.None? ==> Names(records, old(files)[start].dirEnt, path, files[f].dirEnt)
      ensures rest.Some? ==>
        && ok && (files[f].dirEnt, rest.value) !in records.listing
        && path != [] && path[|path| - 1] == Down(rest.value, false) && Names(records, old(files)[start].dirEnt, path[..|path| - 1], files[f].dirEnt)
      ensures !ok ==> Blocked(records, old(files)[start].dirEnt, path, false)
    {
      hide Tree, Handles, Pending, Entries, Rooted, Grew, Opened, Alive, Backed, CanOpen, Names, Step;
      StartsGrown(files);
      f, rest := start, None;
      ghost var d := files[start].dirEnt;
      NamesItself(records, d, path);
      for i := 0 to |path|
        invariant Valid() && f in files && handles == old(handles) && Grew(old(files), files) && next >= old(next)
        invariant !Gone(records, files[f].dirEnt) && Loaded(old(records)) && rest == None
        invariant Names(records, d, path[..i], files[f].dirEnt)
      {
        UpIsAlive(f);
        UpNames(f);
        ghost var via, r := files[f].dirEnt, records;
        match path[i]
        case Refused =>
          return false, f, None;
        case Up =>
          if files[f].parent == None {
            return false, f, None;
          }
          f := files[f].parent.value;
          NamesNext(records, d, path, i, via, files[f].dirEnt);
        case ToRoot =>
          f := root.value;
          StepsToRoot(records, via);
          NamesNext(records, d, path, i, via, files[f].dirEnt);
        case Down(name, onDisk) =>
          var found := SearchODir(f, name, onDisk);
          NamesStays(r, records, d, path[..i], via);
          if found == None {
            if i + 1 < |path| {
              return false, f, None;
            }
            return true, f, Some(name);
          }
          f := OpenListed(f, found.value);
          StepsDown(records, via, name, onDisk);
          NamesNext(records, d, path, i, via, files[f].dirEnt);
      }
      assert path[..|path|] == path;
      ok := true;
    }

    /** FatOpenDirEnt for an entry of an open directory. */
    method OpenListed(at: nat, dirEnt: nat) returns (f: nat)
      requires Valid() && CanOpen(Some(at), dirEnt)
      modifies this
      ensures Valid() && f in files && files[f].dirEnt == dirEnt && files[f].parent == Some(at) && !Gone(records, dirEnt)
      ensures handles == old(handles) && records == old(records) && next >= old(next) && (forall g :: Grew(g, old(files)) ==> Grew(g, files))
      ensures dirEnt !in old(ofileOf) ==> f !in old(files)
    {
      hide Tree, Handles, Pending, Entries, Rooted, Grew, Opened, Alive, Backed, CanOpen;
      ghost var before := files;
      CanOpenIsAlive(Some(at), dirEnt);
      f := OpenDirEnt(Some(at), dirEnt);
      if dirEnt !in old(ofileOf) {
        OpenedGrew(before, f, dirEnt, Some(at));
        forall g | Grew(g, before) ensures Grew(g, files) { GrewTransitive(g, before, files); }
      }
    }

    /**
     FatOpenEx, as far as the tree is concerned. `create` says that the mode asks for a new file and its entry
     can be made; `allowed` is the outcome of the other checks, `flushed` that of FatOFileFlush on the file, which
     fails if a file at or above it has a stored error or its entry cannot be written. A file that has been
     deleted is not opened, and a name that is created gets an entry and a file of its own. The new handle is on
     the file of the entry the path names; there is none only if something forbids it or the path cannot be
     followed. `lost` is a handle the caller does not get: the open fails after it has been made, and the file
     stays open.
     */
    method Open(h: nat, path: seq<Component>, create: bool, allowed: bool, flushed: bool) returns (r: Option<nat>, lost: Option<nat>, f: nat, created: bool)
      requires Settled() && h in handles
      modifies this
      ensures Settled() && Onward(old(records), records)
      ensures r.None? && lost.None? ==> handles == old(handles)
      ensures (r.Some? ==> flushed && lost.None?) && (lost.Some? ==> !flushed) && (r.Some? || lost.Some? ==> allowed)
      ensures r.Some? || lost.Some? ==>
        var k := if r.Some? then r.value else lost.value;
        && k !in old(handles) && handles == old(handles)[k := f] && f in files && Busy(files, f)
        && !Gone(records, files[f].dirEnt) && !Gone(old(records), files[f].dirEnt)
        && Names(records, old(files)[old(handles)[h]].dirEnt, path, files[f].dirEnt)
        && (created ==> f !in old(files) && files[f].dirEnt !in old(ofileOf))
      ensures created ==> create && path != [] && path[|path| - 1].Down? && !path[|path| - 1].onDisk
      ensures r.None? && lost.None? && allowed && old(handles[h] in files && files[handles[h]].dirEnt !in records.invalid) ==>
        Blocked(records, old(files)[old(handles)[h]].dirEnt, path, !create)
      ensures old(handles[h] in files && files[handles[h]].dirEnt in records.invalid) ==> r.None? && lost.None?
      ensures forall g :: g in old(files) ==> g in files
    {
      hide Tree, Handles, Pending, Entries, Rooted, Busy, PartOf, Grew, Alive, Backed, FreedWith, CanOpen, Names, Step, StuckAt;
      HandleHasFile(h);
      ghost var before, start := files, files[handles[h]].dirEnt;
      StartsGrown(files);
      EntriesBelowNext();
      f, created, lost, r := handles[h], false, None, None;
      var ok, rest := false, None;
      if files[f].dirEnt !in records.invalid {
        ok, f, rest := LocateOFile(f, path);
      }
      if ok && rest.Some? {
        ok := create;
        if create {
          ghost var without, via, r0 := files, files[f].dirEnt, records;
          var d := NewDirEnt(f, rest.value);
          f := OpenListed(f, d);
          if f in before { GrewHas(before, without, f); }
          LastStep(r0, records, start, path, via, rest.value, d);
          created := true;
        } else {
          BlockedAtEnd(records, start, path, files[f].dirEnt, rest.value);
        }
      } else if !ok && start !in records.invalid {
        BlockedAnyway(records, start, path, !create);
      }
      ghost var now, mid := files, records;
      if ok && allowed {
        var k := HandleAndClean(f, before);
        OnwardThen(old(records), mid, records, ofileOf);
        SameLists(mid, records, start, path, !create);
        if flushed {
          r := Some(k);
        } else {
          lost := Some(k);
        }
      } else {
        forall g | g in before ensures Busy(now, g) && g in now { BusyStays(before, now, g); GrewHas(before, now, g); }
        CheckVolumeRef();
        OnwardThen(old(records), mid, records, ofileOf);
        SameLists(mid, records, start, path, !create);
      }
    }

    lemma {:induction false} HandleHasFile(h: nat)
      requires Valid() && h in handles
      ensures handles[h] in files && files[handles[h]].dirEnt !in records.freed
    {
      assert EntryKept(files, records, handles[h]);
    }

    /** FatClose, as far as the tree is concerned. */
    method Close(h: nat)
      requires Settled() && h in handles
      modifies this
      ensures Settled() && handles == old(handles) - {h} && old(handles)[h] in old(files)
      ensures forall f :: f in files <==> f in old(files) && Busy(Left(old(files), old(handles), h), f)
      ensures FreedWith(old(records), records, ofileOf)
    {
      hide Busy, Tree, PartOf, FreedWith, Alive, Backed;
      IFileClose(h);
      CheckVolumeRef();
    }

    /** What FatDelete takes out of the directory. */
    ghost predicate Deletes(h: nat, readOnly: bool, removable: bool)
      reads this
      requires h in handles && handles[h] in files
    {
      var f := handles[h];
      && !readOnly && removable && files[f].parent.Some? && files[f].dirEnt !in records.invalid
      && forall k :: k in records.listing ==> k.0 != files[f].dirEnt
    }

    /**
     FatDelete. `removable` says that the file has no other stored error, and that no entry is left in a
     directory that is still to be loaded. The handle goes in any case. The entry of a file that is deleted leaves its directory at once; it is freed together with the
     file, which is now if no other handle needs it. `deleted` is false for EFI_WARN_DELETE_FAILURE.
     */
    method Delete(h: nat, readOnly: bool, removable: bool) returns (deleted: bool)
      requires Settled() && h in handles
      modifies this
      ensures Settled() && handles == old(handles) - {h} && old(handles)[h] in old(files)
      ensures forall f :: f in files <==> f in old(files) && Busy(Left(old(files), old(handles), h), f)
      ensures var d := old(files)[old(handles)[h]].dirEnt;
              && FreedWith(if old(Deletes(h, readOnly, removable)) then Removed(old(records), d) else old(records), records, ofileOf)
              && (old(Deletes(h, readOnly, removable)) ==>
                    && Gone(records, d) && (d in records.freed <==> old(handles)[h] !in files)
                    && forall k :: k in records.listing ==> records.listing[k] != d)
              && deleted == (old(Deletes(h, readOnly, removable)) || (!readOnly && d in old(records).invalid))
      ensures Onward(old(records), records)
    {
      hide Busy, Tree, PartOf, FreedWith, Alive, Backed, Handles, Pending, Entries, Rooted;
      HandleHasFile(h);
      var f := handles[h];
      var d := files[f].dirEnt;
      InvalidHasParent(f);
      deleted := false;
      if !readOnly && files[f].parent != None {
        if d in records.invalid {
          deleted := true;
        } else if removable && forall k :: k in records.listing ==> k.0 != d {
          RemoveDirEnt(f);
          deleted := true;
        }
      }
      ghost var r := records;
      FileOfEntry(f);
      IFileClose(h);
      ghost var now := files;
      CheckVolumeRef();
      OnwardThen(old(records), r, records, ofileOf);
      if f in files { PartSame(files, now, f); }
      GoneWith(r, f, d);
    }

    lemma {:induction false} FileOfEntry(f: nat)
      requires Valid() && f in files
      ensures files[f].dirEnt in ofileOf && ofileOf[files[f].dirEnt] == f
    {
    }

    lemma {:induction false} InvalidHasParent(f: nat)
      requires Valid() && f in files
      ensures files[f].dirEnt in records.invalid ==> files[f].parent.Some?
    {
      assert EntryKept(files, records, f);
    }

    /** An entry that was marked before the check is freed exactly if its file is. */
    lemma {:induction false} GoneWith(r: Records, f: nat, d: nat)
      requires Valid() && FreedWith(r, records, ofileOf)
      ensures d in r.invalid ==> Gone(records, d)
      ensures d in r.invalid && d !in r.freed && (f in files ==> files[f].dirEnt == d) && (d in ofileOf ==> ofileOf[d] == f) ==> (d in records.freed <==> f !in files)
    {
    }
  }

  lemma {:induction false} ClosedIsPart(part: Files, files: Files, f: nat)
    requires PartOf(part, files) && f in part && part[f].opens == {}
    ensures PartOf(Closed(part, f), files) && |Closed(part, f)| < |part|
  {
    var r := Closed(part, f);
    assert r.Keys == part.Keys - {f};
    assert |part.Keys - {f}| == |part.Keys| - 1;
    assert |r.Keys| == |r| && |part.Keys| == |part|;
  }

  lemma {:induction false} FreshHandle(files: Files, handles: map<nat, nat>, h: nat)
    requires Handles(files, handles, h)
    ensures h !in handles
  {
  }

  lemma {:induction false} OffTheList(files: Files, checkRef: seq<nat>, f: nat)
    requires Pending(files, checkRef, Some(f)) && f in files
    ensures Pending(files, Without(checkRef, f), Some(f))
    ensures !Unreferenced(files, f) ==> Pending(files, Without(checkRef, f), None)
  {
  }

  lemma {:induction false} StartPending(files: Files, checkRef: seq<nat>, start: nat)
    requires Pending(files, checkRef, None) && start in checkRef
    ensures Pending(files, checkRef, Some(start)) && start in files && |Without(checkRef, start)| < |checkRef|
  {
  }

  lemma {:induction false} StartsAsPart(files: Files)
    ensures PartOf(files, files)
  {
  }

  lemma {:induction false} PartTransitive(a: Files, b: Files, c: Files)
    requires PartOf(a, b) && PartOf(b, c)
    ensures PartOf(a, c)
  {
  }

  lemma {:induction false} NothingPending(files: Files)
    requires Pending(files, [], None)
    ensures forall f :: f in files ==> !Unreferenced(files, f)
  {
  }

  lemma {:induction false} StartsGrown(files: Files)
    ensures Grew(files, files)
  {
  }

  lemma {:induction false} GrewHas(files: Files, files': Files, g: nat)
    requires Grew(files, files') && g in files
    ensures g in files'
  {
  }

  lemma {:induction false} NewHandleIsBusy(files: Files, f: nat, h: nat)
    requires f in files && h in files[f].opens
    ensures Busy(files, f)
  {
    assert AtOrAbove(files, f, f);
  }

  lemma {:induction false} PartSame(part: Files, files: Files, f: nat)
    requires PartOf(part, files) && f in part
    ensures f in files && part[f].dirEnt == files[f].dirEnt
  {
  }

  lemma {:induction false} OpenedHas(files: Files, ofileOf: map<nat, nat>, d: nat)
    requires Entries(files, ofileOf) && d in ofileOf
    ensures ofileOf[d] in files && files[ofileOf[d]].dirEnt == d
  {
  }

  lemma {:induction false} EntryOf(files: Files, ofileOf: map<nat, nat>, f: nat)
    requires Entries(files, ofileOf) && f in files
    ensures files[f].dirEnt in ofileOf
  {
  }

  lemma {:induction false} MoreRooted(files: Files, root: Option<nat>, r: Records, next: nat)
    requires Rooted(files, root, next) && Alive(r, next)
    ensures Rooted(files, root, next + 1) && Alive(r, next + 1) && next !in files
  {
  }

  lemma {:induction false} OnwardThen(r: Records, mid: Records, r': Records, ofileOf': map<nat, nat>)
    requires Onward(r, mid) && FreedWith(mid, r', ofileOf')
    ensures Onward(r, r') && r'.listing == mid.listing && forall d :: Gone(r', d) <==> Gone(mid, d)
  {
  }

  lemma {:induction false} StartsFreed(files: Files, ofileOf: map<nat, nat>, r: Records)
    requires Backed(files, ofileOf, r)
    ensures FreedWith(r, r, ofileOf)
  {
  }

  lemma {:induction false} FreedOneMore(r0: Records, r: Records, ofileOf: map<nat, nat>, d: nat)
    requires FreedWith(r0, r, ofileOf) && d in ofileOf
    ensures FreedWith(r0, Released(r, d), ofileOf - {d})
  {
  }

  lemma {:induction false} FreedTransitive(a: Records, b: Records, c: Records, ofileOf: map<nat, nat>, ofileOf': map<nat, nat>)
    requires FreedWith(a, b, ofileOf) && FreedWith(b, c, ofileOf') && forall d :: d in ofileOf' ==> d in ofileOf
    ensures FreedWith(a, c, ofileOf')
  {
  }
}
