/**
 What each file operation of fs/fat.c does to the volume, as relations between the
 state before and after, and the lemmas by which class `Volume` establishes them.
 */
module FatOps {
  import opened FatTable
  import opened FatGeometry
  import opened FatData
  import opened FatIo
  import opened FatNames
  import opened FatDir
  import opened FatFs
  import opened FatState
  import opened FatSlots

  const ATTR_FILE: byte := 0x00
  const ATTR_DIRECTORY: byte := 0x10

  lemma ShapedOf(s: State, g: Geometry)
    requires Consistent(s, g)
    ensures Shaped(s, g)
  {
  }

  // The name is unused and some slot is vacant.
  ghost predicate HasRoom(v: seq<Slot>, name: seq<byte>) {
    FirstMatch(Named(name), v) == |v| && FirstMatch(Vacant, v) < |v|
  }

  // What fat_node_create and fat_node_mkdir need.
  ghost predicate CanCreate(s: State, g: Geometry, d: u16, name: seq<byte>)
    requires Consistent(s, g) && d in TreeOf(s, g)
  {
    HasRoom(TreeOf(s, g)[d], name) && FirstFree(s.t, Limit(g), 2) < Limit(g)
  }

  // The tree with e in the first vacant slot of directory d, if that slot can be written.
  ghost function Entered(s: State, g: Geometry, d: u16, e: Slot): (r: map<u16, seq<Slot>>)
    requires Consistent(s, g) && d in TreeOf(s, g)
  {
    var v := TreeOf(s, g)[d];
    var k := FirstMatch(Vacant, v);
    if k < |v| && SlotWritable(g, d, k) then TreeOf(s, g)[d := PutSlot(v, k, e)] else TreeOf(s, g)
  }

  // Allocating a cluster does not move a slot.
  lemma StillAt(s: State, c: u16, g: Geometry, d: u16, loc: Location, j: nat, k: nat)
    requires Consistent(s, g) && c < |s.t| && c !in s.chains && Consistent(Allocated(s, c), g)
             && (d == 0 || d in s.dirs)
    requires IsAt(s.disk, g, s.chains, d, loc, j, k)
    ensures IsAt(s.disk, g, Allocated(s, c).chains, d, loc, j, k)
    ensures c != d && c !in s.dirs
  {
    hide TreeOf, Owned, CacheAgrees, WellFormed, ClusterBytes, Span;
    var m := Allocated(s, c).chains;
    assert c in m && c >= 2;
    assert d != 0 ==> d in s.chains && m[d] == s.chains[d];
  }

  lemma FreeOne(t: seq<u16>, n: nat, c: u16)
    requires n <= |t| && n <= EOC && 2 <= c < n && t[c] == FREE
    ensures FreeFrom(t[c := EOC], n, c) == t
  {
    var u := t[c := EOC];
    PutFreeMeasure(u, n, c);
    assert u[c := FREE] == t;
    assert Stops(EOC);
  }

  lemma AllocThenFree(s: State, g: Geometry, c: u16)
    requires Consistent(s, g) && 2 <= c < Limit(g) && s.t[c] == FREE && c !in s.chains
    ensures var r := Freed(Allocated(s, c), g, c);
            r.t == s.t && r.chains == s.chains && r.dirs == s.dirs && TreeOf(s, g) - {c} == TreeOf(s, g)
  {
    hide Tree, Owned;
    hide WellFormed, Laid, CacheAgrees;
    FreeOne(s.t, Limit(g), c);
    assert c !in s.dirs + {0};
  }

  lemma TreeAt(s: State, g: Geometry, d: u16)
    requires Shaped(s, g) && (d == 0 || d in s.dirs)
    ensures TreeOf(s, g)[d] == DirSlots(s.disk, g, s.chains, d)
  {
  }

  // Freeing a chain changes the table.
  lemma FreeChanges(s: State, g: Geometry, c: u16)
    requires Shaped(s, g) && c in s.chains
    ensures FreeFrom(s.t, Limit(g), c) != s.t
  {
    var chain := s.chains[c];
    FreeChainExact(s.t, Limit(g), chain);
    ChainNotFree(s.t, Limit(g), chain, 0);
    assert c in Elements(chain);
  }

  // ---------------------------------------------------------------- create

  // Nothing but the FAT copies and the dirty flag may differ.
  ghost predicate Unchanged(s: State, r: State, g: Geometry)
    requires Consistent(s, g) && Consistent(r, g)
  {
    r.t == s.t && r.chains == s.chains && r.dirs == s.dirs && TreeOf(r, g) == TreeOf(s, g)
  }

  // The tree v with the entry e in one vacant slot of directory d.
  ghost predicate SlotFilled(v: map<u16, seq<Slot>>, w: map<u16, seq<Slot>>, d: u16, e: Slot)
    requires d in v
  {
    exists k: nat :: k < |v[d]| && IsVacant(v[d][k]) && w == v[d := PutSlot(v[d], k, e)]
  }

  /** fat_node_create: 0 leaves the volume alone; otherwise the lowest free cluster is a
      new one-cluster chain, and the tree is as before or has the new entry in one vacant
      slot.  Only the directory and the FAT copies change on disk.  On a reliable disk the
      call succeeds exactly when it can, enters the name in the first vacant slot and leaves
      the table clean. */
  ghost predicate CreateDone(s: State, r: State, g: Geometry, d: u16, name: seq<byte>, first: u16, reliable: bool)
    requires Consistent(s, g) && Consistent(r, g) && d in TreeOf(s, g) && |name| == 11
  {
    && FilesKept(s, r, g, 0) && OnlyDir(s.disk, r.disk, g, s.chains, d)
    && (if first == 0 then Unchanged(s, r, g)
        else && r.dirs == s.dirs
             && first == FirstFree(s.t, Limit(g), 2) < Limit(g)
             && first !in s.chains && r.chains == s.chains[first := [first]]
             && r.t == s.t[first := EOC]
             && (TreeOf(r, g) == TreeOf(s, g)
                 || SlotFilled(TreeOf(s, g), TreeOf(r, g), d, NewEntry(name, ATTR_FILE, first))))
    && (reliable ==> && (first != 0 <==> CanCreate(s, g, d, name))
                     && (first == 0 ==> r == s)
                     && (first != 0 ==> !r.dirty && TreeOf(r, g) == Entered(s, g, d, NewEntry(name, ATTR_FILE, first))))
  }

  lemma SameIsKept(s: State, g: Geometry)
    requires Shaped(s, g)
    ensures FilesKept(s, s, g, 0)
  {
  }

  // A directory's area does not depend on the other chains.
  lemma OnlyDirChains(a: seq<Sector>, b: seq<Sector>, g: Geometry, m: map<u16, seq<u16>>, m': map<u16, seq<u16>>,
                      d: u16)
    requires OnlyDir(a, b, g, m, d) && (d == 0 || (d in m && d in m' && m[d] == m'[d]))
    ensures OnlyDir(a, b, g, m', d)
  {
  }

  // A directory written, then the FAT copies.
  lemma OnlyDirSynced(a: seq<Sector>, b: seq<Sector>, c: seq<Sector>, g: Geometry, m: map<u16, seq<u16>>, d: u16)
    requires OnlyArea(a, b, g, m, d) && OnlyFats(b, c, g)
    ensures OnlyDir(a, c, g, m, d)
  {
    hide InArea;
  }

  lemma CreateRefused(s: State, g: Geometry, d: u16, name: seq<byte>)
    requires Consistent(s, g) && d in TreeOf(s, g) && |name| == 11
    ensures CreateDone(s, s, g, d, name, 0, false)
    ensures !CanCreate(s, g, d, name) ==> CreateDone(s, s, g, d, name, 0, true)
  {
    hide TreeOf, FilesKept, CanCreate, Entered, FirstFree;
    SameIsKept(s, g);
  }

  lemma CreateUndone(s: State, r: State, g: Geometry, d: u16, name: seq<byte>, first: u16)
    requires Consistent(s, g) && Consistent(r, g) && d in TreeOf(s, g) && |name| == 11
    requires 2 <= first < Limit(g) && s.t[first] == FREE && first !in s.chains
    requires r == Freed(Allocated(s, first), g, first)
    requires TreeOf(r, g) == TreeOf(s, g) - {first}
    ensures CreateDone(s, r, g, d, name, 0, false)
  {
    hide TreeOf, FilesKept, CanCreate, Entered, FirstFree, FreeFrom;
    AllocThenFree(s, g, first);
    FilesKeptByChains(s, r, g, 0);
  }

  lemma CreateFinished(s: State, r: State, g: Geometry, d: u16, name: seq<byte>, first: u16,
                       loc: Location, j: nat, k: nat, reliable: bool)
    requires Consistent(s, g) && Consistent(r, g) && d in TreeOf(s, g) && |name| == 11
    requires first == FirstFree(s.t, Limit(g), 2) < Limit(g) && first !in s.chains
    requires Consistent(Allocated(s, first), g)
    requires r.chains == s.chains[first := [first]] && r.t == s.t[first := EOC] && r.dirs == s.dirs
    requires FilesKept(Allocated(s, first), r, g, 0)
    requires IsAt(s.disk, g, s.chains, d, loc, j, k) && k < |TreeOf(s, g)[d]| && IsVacant(TreeOf(s, g)[d][k])
    requires TreeOf(r, g) ==
             if Writable(loc) then TreeOf(s, g)[d := PutSlot(TreeOf(s, g)[d], k, NewEntry(name, ATTR_FILE, first))]
                             else TreeOf(s, g)
    requires OnlyDir(s.disk, r.disk, g, r.chains, d) && (d == 0 || d in s.dirs)
    requires reliable ==> CanCreate(s, g, d, name) && k == FirstMatch(Vacant, TreeOf(s, g)[d]) && !r.dirty
    ensures CreateDone(s, r, g, d, name, first, reliable)
    ensures k == FirstMatch(Vacant, TreeOf(s, g)[d]) ==>
              TreeOf(r, g) == Entered(s, g, d, NewEntry(name, ATTR_FILE, first))
  {
    hide TreeOf, FilesKept, FirstFree, FirstMatch, NewEntry, IsAt, WellFormed, Owned, CacheAgrees, OnlyDir, Laid;
    hide PutSlot;
    assert d != 0 ==> d in s.chains && d != first;
    OnlyDirChains(s.disk, r.disk, g, r.chains, s.chains, d);
    FilesKeptByChains(s, Allocated(s, first), g, 0);
    FilesKeptTrans(s, Allocated(s, first), r, g, 0);
    WritableSlot(s.disk, g, s.chains, d, loc, j, k);
  }

  // ---------------------------------------------------------------- unlink

  // Slot k of directory d is marked deleted; nothing else in the tree changes.
  ghost function Struck(s: State, g: Geometry, d: u16, k: nat): (r: map<u16, seq<Slot>>)
    requires Consistent(s, g) && d in TreeOf(s, g) && k < |TreeOf(s, g)[d]|
  {
    var v := TreeOf(s, g)[d];
    TreeOf(s, g)[d := PutSlot(v, k, Deleted(v[k]))]
  }

  /** Entry k of directory d is gone, and exactly the clusters of its chain are free again. */
  ghost predicate Removed(s: State, r: State, g: Geometry, d: u16, k: nat)
    requires Consistent(s, g) && Consistent(r, g) && d in TreeOf(s, g) && k < |TreeOf(s, g)[d]|
  {
    var first := FirstCluster(TreeOf(s, g)[d][k]);
    if first == 0 then
      r.t == s.t && r.chains == s.chains && r.dirs == s.dirs && TreeOf(r, g) == Struck(s, g, d, k)
    else
      && first in s.chains && r.chains == s.chains - {first} && r.dirs == s.dirs - {first}
      && r.t == FreeFrom(s.t, Limit(g), first)
      && FreeSet(r.t, Limit(g)) == FreeSet(s.t, Limit(g)) + Elements(s.chains[first])
      && TreeOf(r, g) == Struck(s, g, d, k) - {first}
  }

  /** fat_node_unlink (and fat_node_rmdir), where k is the slot it found. */
  ghost predicate UnlinkDone(s: State, r: State, g: Geometry, d: u16, name: seq<byte>, ok: bool, k: nat, reliable: bool)
    requires Consistent(s, g) && Consistent(r, g) && d in TreeOf(s, g)
  {
    var v := TreeOf(s, g)[d];
    && OnlyDir(s.disk, r.disk, g, s.chains, d)
    && (ok ==> k < |v| && Matches(Named(name), v[k]) && Removed(s, r, g, d, k)
               && FilesKept(s, r, g, FirstCluster(v[k])))
    && (!ok ==> r.t == s.t && r.chains == s.chains && r.dirs == s.dirs && FilesKept(s, r, g, 0))
    && (!ok ==> TreeOf(r, g) == TreeOf(s, g)
                || (k < |v| && Matches(Named(name), v[k]) && TreeOf(r, g) == Struck(s, g, d, k)))
    && (reliable ==> && (ok <==> FirstMatch(Named(name), v) < |v|)
                     && (ok ==> k == FirstMatch(Named(name), v) && !r.dirty)
                     && (!ok ==> r == s))
  }

  lemma UnlinkRefused(s: State, g: Geometry, d: u16, name: seq<byte>, k: nat)
    requires Consistent(s, g) && d in TreeOf(s, g)
    ensures UnlinkDone(s, s, g, d, name, false, k, false)
    ensures FirstMatch(Named(name), TreeOf(s, g)[d]) == |TreeOf(s, g)[d]| ==>
              UnlinkDone(s, s, g, d, name, false, k, true)
  {
    hide TreeOf, FilesKept, FirstMatch, Matches, Struck;
    SameIsKept(s, g);
  }

  /** Marking the entry deleted keeps the invariant and leaves its chain without an owner. */
  lemma StrikeStep(s: State, g: Geometry, disk: seq<Sector>, d: u16, k: nat)
    requires Consistent(s, g) && d in TreeOf(s, g) && k < |TreeOf(s, g)[d]|
    requires OnlyArea(s.disk, disk, g, s.chains, d)
    requires DirSlots(disk, g, s.chains, d) == PutSlot(TreeOf(s, g)[d], k, Deleted(TreeOf(s, g)[d][k]))
    requires Owning(TreeOf(s, g)[d][k])
    ensures var r := s.(disk := disk);
            var first := FirstCluster(TreeOf(s, g)[d][k]);
            && Consistent(r, g) && TreeOf(r, g) == Struck(s, g, d, k) && FilesKept(s, r, g, 0)
            && (first != 0 ==> first in s.chains && NoOwner(TreeOf(r, g), first))
  {
    hide TreeOf, WellFormed, Owned, DirSlots, FatCopy, Encode, FilesKept, Deleted, CacheAgrees, Laid, FileSize;
    var v := TreeOf(s, g);
    var e := Deleted(v[d][k]);
    SlotStep(s, g, disk, d, k, e);
    FilesKeptByArea(s, disk, g, d);
    if FirstCluster(v[d][k]) != 0 {
      StrikeNoOwner(v, s.chains.Keys, s.dirs, d, k);
    }
  }

  lemma StrikeNoOwner(v: map<u16, seq<Slot>>, chains: set<u16>, dirs: set<u16>, d: u16, k: nat)
    requires Owned(v, chains, dirs) && Owns(v, d, k)
    ensures FirstCluster(v[d][k]) in chains
    ensures NoOwner(v[d := PutSlot(v[d], k, Deleted(v[d][k]))], FirstCluster(v[d][k]))
  {
    hide FirstCluster, IsDirectory;
    var w := v[d := PutSlot(v[d], k, Deleted(v[d][k]))];
    forall c: u16, j: nat | Owns(w, c, j)
      ensures Owns(v, c, j) && w[c][j] == v[c][j] && (c != d || j != k)
    {
    }
  }

  lemma UnlinkFailed(s: State, r: State, g: Geometry, d: u16, name: seq<byte>, k: nat)
    requires Consistent(s, g) && d in TreeOf(s, g) && k < |TreeOf(s, g)[d]|
    requires Matches(Named(name), TreeOf(s, g)[d][k]) && Owning(TreeOf(s, g)[d][k])
    requires r == s.(disk := r.disk) && OnlyArea(s.disk, r.disk, g, s.chains, d)
    requires DirSlots(r.disk, g, s.chains, d) == TreeOf(s, g)[d]
             || DirSlots(r.disk, g, s.chains, d) == PutSlot(TreeOf(s, g)[d], k, Deleted(TreeOf(s, g)[d][k]))
    ensures Consistent(r, g) && UnlinkDone(s, r, g, d, name, false, k, false)
  {
    hide TreeOf, WellFormed, Owned, DirSlots, FatCopy, Encode, FilesKept, Deleted, CacheAgrees, Laid, FirstMatch;
    hide Matches, Owning;
    if DirSlots(r.disk, g, s.chains, d) == TreeOf(s, g)[d] {
      UntouchedStep(s, g, r.disk, d);
    } else {
      StrikeStep(s, g, r.disk, d, k);
    }
  }

  // A directory rewritten with the slots it had.
  lemma UntouchedStep(s: State, g: Geometry, disk: seq<Sector>, d: u16)
    requires Consistent(s, g) && d in TreeOf(s, g)
    requires OnlyArea(s.disk, disk, g, s.chains, d) && DirSlots(disk, g, s.chains, d) == TreeOf(s, g)[d]
    ensures var r := s.(disk := disk);
            Consistent(r, g) && TreeOf(r, g) == TreeOf(s, g) && FilesKept(s, r, g, 0)
  {
    hide WellFormed, Owned, DirSlots, FatCopy, Encode, FilesKept, Tree, Laid;
    TreeUpdate(s.disk, disk, g, s.chains, s.dirs, d, TreeOf(s, g)[d]);
    FatsUntouched(s.disk, disk, g, s.chains, d, 0);
    FilesKeptByArea(s, disk, g, d);
    assert TreeOf(s, g)[d := TreeOf(s, g)[d]] == TreeOf(s, g);
  }

  lemma UnlinkFinished(s: State, s1: State, s2: State, r: State, g: Geometry, d: u16, name: seq<byte>, k: nat,
                       reliable: bool)
    requires Consistent(s, g) && Consistent(s1, g) && Consistent(s2, g) && Consistent(r, g)
    requires d in TreeOf(s, g) && k < |TreeOf(s, g)[d]| && Matches(Named(name), TreeOf(s, g)[d][k])
    requires s1 == s.(disk := s1.disk) && TreeOf(s1, g) == Struck(s, g, d, k) && FilesKept(s, s1, g, 0)
    requires OnlyArea(s.disk, s1.disk, g, s.chains, d)
    requires var first := FirstCluster(TreeOf(s, g)[d][k]);
             if first == 0 then s2 == s1
             else && first in s.chains && s2 == Freed(s1, g, first) && TreeOf(s2, g) == TreeOf(s1, g) - {first}
                  && FreeSet(s2.t, Limit(g)) == FreeSet(s1.t, Limit(g)) + Elements(s1.chains[first])
    requires r == s2.(disk := r.disk, dirty := r.dirty) && TreeOf(r, g) == TreeOf(s2, g) && OnlyFats(s2.disk, r.disk, g)
    requires reliable ==> k == FirstMatch(Named(name), TreeOf(s, g)[d]) && !r.dirty
    ensures UnlinkDone(s, r, g, d, name, true, k, reliable)
  {
    hide TreeOf, WellFormed, Owned, FilesKept, CacheAgrees, Laid, Struck, FirstMatch, Matches, FreeFrom, FreeSet;
    hide OnlyFats;
    hide OnlyArea, OnlyDir;
    OnlyDirSynced(s.disk, s2.disk, r.disk, g, s.chains, d);
    var first := FirstCluster(TreeOf(s, g)[d][k]);
    FilesKeptWiden(s, s1, g, first);
    FilesKeptByChains(s1, s2, g, first);
    FilesKeptTrans(s, s1, s2, g, first);
    FilesKeptBySync(s2, r, g, first);
    FilesKeptTrans(s, s2, r, g, first);
  }

  lemma FilesKeptWiden(s: State, r: State, g: Geometry, c: u16)
    requires Shaped(s, g) && Shaped(r, g) && FilesKept(s, r, g, 0)
    ensures FilesKept(s, r, g, c)
  {
    hide FileBytes, WellFormed;
    assert 0 !in s.chains;
  }

  // ---------------------------------------------------------------- mkdir

  const DOT_NAME: seq<byte> := [0x2E, 0x20, 0x20, 0x20, 0x20, 0x20, 0x20, 0x20, 0x20, 0x20, 0x20]
  const DOTDOT_NAME: seq<byte> := [0x2E, 0x2E, 0x20, 0x20, 0x20, 0x20, 0x20, 0x20, 0x20, 0x20, 0x20]

  // The first cluster of a new directory: `.`, `..` and zeros.
  function DirImage(first: u16, parent: u16): (r: seq<byte>)
    ensures |r| == BUFFER_SIZE
  {
    NewEntry(DOT_NAME, ATTR_DIRECTORY, first) + NewEntry(DOTDOT_NAME, ATTR_DIRECTORY, parent)
    + seq(BUFFER_SIZE - 64, _ => 0)
  }

  ghost function DirImageSlots(g: Geometry, first: u16, parent: u16): seq<Slot>
    requires g.Valid()
  {
    Slots(DirImage(first, parent)[..g.ClusterSize()])
  }

  lemma DirImageOwnsNothing(g: Geometry, first: u16, parent: u16, k: nat)
    requires g.Valid() && k < |DirImageSlots(g, first, parent)|
    ensures !Owning(DirImageSlots(g, first, parent)[k])
  {
    var b := DirImage(first, parent);
    var e := DirImageSlots(g, first, parent)[k];
    assert e == SlotAt(b[..g.ClusterSize()], k) == b[32 * k..32 * k + 32];
    assert e[0] == b[32 * k];
    if k < 2 {
      assert NewEntry(DOT_NAME, ATTR_DIRECTORY, first)[0] == NameOf(NewEntry(DOT_NAME, ATTR_DIRECTORY, first))[0];
      assert NewEntry(DOTDOT_NAME, ATTR_DIRECTORY, parent)[0]
             == NameOf(NewEntry(DOTDOT_NAME, ATTR_DIRECTORY, parent))[0];
      assert e[0] == DOT;
    } else {
      assert e[0] == 0;
    }
  }

  /** fat_node_mkdir: as create, with the new chain a directory holding `.` and `..`; the
      entry for it goes into one vacant slot of the parent or nowhere. */
  ghost predicate MkdirDone(s: State, r: State, g: Geometry, d: u16, name: seq<byte>, first: u16, reliable: bool)
    requires Consistent(s, g) && Consistent(r, g) && d in TreeOf(s, g) && |name| == 11
  {
    && FilesKept(s, r, g, 0)
    && (if first == 0 then Unchanged(s, r, g)
        else && r.dirs == s.dirs + {first}
             && first == FirstFree(s.t, Limit(g), 2) < Limit(g)
             && first !in s.chains && r.chains == s.chains[first := [first]]
             && r.t == s.t[first := EOC]
             && var v := TreeOf(s, g)[first := DirImageSlots(g, first, d)];
                TreeOf(r, g) == v || SlotFilled(v, TreeOf(r, g), d, NewEntry(name, ATTR_DIRECTORY, first)))
    && (reliable ==> && (first != 0 <==> CanCreate(s, g, d, name))
                     && (first == 0 ==> r == s)
                     && (first != 0 ==>
                           && !r.dirty
                           && TreeOf(r, g) == Entered(s, g, d, NewEntry(name, ATTR_DIRECTORY, first))
                                                [first := DirImageSlots(g, first, d)]))
  }

  lemma MkdirRefused(s: State, g: Geometry, d: u16, name: seq<byte>)
    requires Consistent(s, g) && d in TreeOf(s, g) && |name| == 11
    ensures MkdirDone(s, s, g, d, name, 0, false)
    ensures !CanCreate(s, g, d, name) ==> MkdirDone(s, s, g, d, name, 0, true)
  {
    hide TreeOf, FilesKept, CanCreate, Entered, FirstFree;
    SameIsKept(s, g);
  }

  // A write into another chain does not move a slot.
  lemma StillAtDisk(a: seq<Sector>, b: seq<Sector>, g: Geometry, m: map<u16, seq<u16>>, c: u16, d: u16, loc: Location,
                    j: nat, k: nat)
    requires OnDisk(a, g) && Laid(g, m) && c in m && IsDir(m, d) && c != d
    requires OnlyArea(a, b, g, m, c) && IsAt(a, g, m, d, loc, j, k)
    ensures IsAt(b, g, m, d, loc, j, k)
  {
    hide ClusterBytes, Span;
    match loc
    case Nowhere =>
    case InRoot(sec, i, buf) =>
      ChainBehind(g, m, c, g.rootStart + sec);
    case InChain(cluster, i, buf) =>
      forall l | 0 <= l < |a| && InCluster(g, cluster, l)
        ensures a[l] == b[l]
      {
        AreasApart(g, m, c, d, j, l);
      }
      ClusterFrame(a, b, g, cluster);
  }

  /** The state after the new directory's cluster has been written in full. */
  lemma MkdirWritten(s: State, disk: seq<Sector>, g: Geometry, first: u16, parent: u16)
    requires Consistent(s, g) && 2 <= first < Limit(g) && s.t[first] == FREE && first !in s.chains
    requires OnlyCluster(s.disk, disk, g, first)
    requires ClusterBytes(disk, g, first) == DirImage(first, parent)[..g.ClusterSize()]
    ensures var r := Allocated(s, first).(disk := disk, dirs := s.dirs + {first});
            && Consistent(r, g) && NoOwner(TreeOf(r, g), first)
            && TreeOf(r, g) == TreeOf(s, g)[first := DirImageSlots(g, first, parent)]
  {
    hide TreeOf, Tree, WellFormed, Owned, NoOwner, FatCopy, Encode, FreeSet, ClusterBytes, DirImage, Slots, Owning;
    hide IsChain;
    AllocStep(s, g, first);
    var s1 := Allocated(s, first);
    ClusterIsArea(s.disk, disk, g, s1.chains, first, 0);
    DataStep(s1, g, disk, first);
    var s2 := s1.(disk := disk);
    OneCluster(disk, g, first);
    forall k | 0 <= k < |DirSlots(disk, g, s2.chains, first)|
      ensures !Owning(DirSlots(disk, g, s2.chains, first)[k])
    {
      DirImageOwnsNothing(g, first, parent, k);
    }
    PromoteStep(s2, g, first);
  }

  lemma OneCluster(disk: seq<Sector>, g: Geometry, c: u16)
    requires OnDisk(disk, g) && g.IsCluster(c)
    ensures FileBytes(disk, g, [c]) == ClusterBytes(disk, g, c)
  {
    hide ClusterBytes;
    assert [c][..0] == [];
    assert FileBytes(disk, g, []) == [];
  }

  /** A partly written new cluster: the state before it is freed again. */
  lemma MkdirPartly(s: State, disk: seq<Sector>, g: Geometry, first: u16)
    requires Consistent(s, g) && 2 <= first < Limit(g) && s.t[first] == FREE && first !in s.chains
    requires OnlyCluster(s.disk, disk, g, first)
    ensures var r := Allocated(s, first).(disk := disk);
            Consistent(r, g) && NoOwner(TreeOf(r, g), first) && TreeOf(r, g) == TreeOf(s, g)
  {
    hide TreeOf, Tree, WellFormed, Owned, NoOwner, FatCopy, Encode, FreeSet;
    AllocStep(s, g, first);
    var s1 := Allocated(s, first);
    ClusterIsArea(s.disk, disk, g, s1.chains, first, 0);
    DataStep(s1, g, disk, first);
  }

  // The files are untouched by a write into the new cluster.
  lemma MkdirKeeps(s: State, r: State, g: Geometry, first: u16)
    requires Consistent(s, g) && Consistent(r, g) && first !in s.chains && 2 <= first
    requires OnlyCluster(s.disk, r.disk, g, first)
    requires r.chains == s.chains[first := [first]] && (r.dirs == s.dirs || r.dirs == s.dirs + {first})
    ensures FilesKept(s, r, g, 0)
  {
    hide FileBytes, WellFormed, Owned, Tree, FatCopy, Encode, Span, BootKept;
    ClusterIsArea(s.disk, r.disk, g, r.chains, first, 0);
    BootKeptByArea(s.disk, r.disk, g, r.chains, first);
    forall c | c in s.chains
      ensures FileBytes(r.disk, g, r.chains[c]) == FileBytes(s.disk, g, s.chains[c])
    {
      OtherChain(s.disk, r.disk, g, r.chains, first, c);
    }
  }

  lemma MkdirUndone(s: State, s1: State, r: State, g: Geometry, d: u16, name: seq<byte>, first: u16)
    requires Consistent(s, g) && Consistent(s1, g) && Consistent(r, g) && d in TreeOf(s, g) && |name| == 11
    requires 2 <= first < Limit(g) && s.t[first] == FREE && first !in s.chains
    requires s1 == Allocated(s, first).(disk := s1.disk, dirs := s1.dirs)
             && (s1.dirs == s.dirs || s1.dirs == s.dirs + {first})
    requires FilesKept(s, s1, g, 0)
    requires r == Freed(s1, g, first) && TreeOf(r, g) == TreeOf(s, g)
    ensures MkdirDone(s, r, g, d, name, 0, false)
  {
    hide TreeOf, FilesKept, CanCreate, Entered, FirstFree, FreeFrom, Owned, WellFormed, CacheAgrees;
    AllocThenFree(s, g, first);
    assert first !in s.dirs;
    FilesKeptByChains(s1, r, g, first);
    FilesKeptWiden(s, s1, g, first);
    FilesKeptTrans(s, s1, r, g, first);
    FilesKeptNarrow(s, r, g, first);
  }

  lemma FilesKeptNarrow(s: State, r: State, g: Geometry, c: u16)
    requires Shaped(s, g) && Shaped(r, g) && FilesKept(s, r, g, c) && c !in s.chains
    ensures FilesKept(s, r, g, 0)
  {
    hide FileBytes, WellFormed;
  }

  lemma MkdirFinished(s: State, s1: State, r: State, g: Geometry, d: u16, name: seq<byte>, first: u16,
                      loc: Location, j: nat, k: nat, reliable: bool)
    requires Consistent(s, g) && Consistent(s1, g) && Consistent(r, g) && d in TreeOf(s, g) && |name| == 11
    requires first == FirstFree(s.t, Limit(g), 2) < Limit(g) && first !in s.chains && first != d
    requires s1 == Allocated(s, first).(disk := s1.disk, dirs := s.dirs + {first}) && FilesKept(s, s1, g, 0)
    requires TreeOf(s1, g) == TreeOf(s, g)[first := DirImageSlots(g, first, d)]
    requires r.chains == s1.chains && r.t == s1.t && r.dirs == s1.dirs && FilesKept(s1, r, g, 0)
    requires IsAt(s.disk, g, s.chains, d, loc, j, k) && k < |TreeOf(s, g)[d]| && IsVacant(TreeOf(s, g)[d][k])
    requires TreeOf(r, g) ==
             if Writable(loc)
             then TreeOf(s1, g)[d := PutSlot(TreeOf(s, g)[d], k, NewEntry(name, ATTR_DIRECTORY, first))]
                             else TreeOf(s1, g)
    requires reliable ==> CanCreate(s, g, d, name) && k == FirstMatch(Vacant, TreeOf(s, g)[d]) && !r.dirty
    ensures MkdirDone(s, r, g, d, name, first, reliable)
  {
    hide TreeOf, FilesKept, FirstFree, FirstMatch, NewEntry, IsAt, WellFormed, Owned, CacheAgrees, PutSlot;
    hide DirImageSlots;
    FilesKeptTrans(s, s1, r, g, 0);
    WritableSlot(s.disk, g, s.chains, d, loc, j, k);
    TwoKeys(TreeOf(s, g), first, DirImageSlots(g, first, d), d,
            PutSlot(TreeOf(s, g)[d], k, NewEntry(name, ATTR_DIRECTORY, first)));
  }

  lemma TwoKeys(v: map<u16, seq<Slot>>, a: u16, x: seq<Slot>, b: u16, y: seq<Slot>)
    requires a != b
    ensures v[a := x][b := y] == v[b := y][a := x]
  {
  }

  lemma NotInTree(s: State, g: Geometry, c: u16, v: seq<Slot>)
    requires Consistent(s, g) && c !in s.chains && c != 0
    ensures TreeOf(s, g) - {c} == TreeOf(s, g)
    ensures TreeOf(s, g)[c := v] - {c} == TreeOf(s, g)
  {
    hide Tree, Owned, WellFormed, CacheAgrees;
    assert c !in s.dirs + {0};
  }

  lemma AtAfterWrite(s: State, disk: seq<Sector>, g: Geometry, c: u16, d: u16, loc: Location, j: nat, k: nat)
    requires Consistent(s, g) && c in s.chains && s.chains[c] == [c] && IsDir(s.chains, d) && c != d
    requires OnlyCluster(s.disk, disk, g, c) && IsAt(s.disk, g, s.chains, d, loc, j, k)
    ensures IsAt(disk, g, s.chains, d, loc, j, k)
  {
    hide IsAt, Owned, WellFormed, CacheAgrees, Tree;
    ClusterIsArea(s.disk, disk, g, s.chains, c, 0);
    StillAtDisk(s.disk, disk, g, s.chains, c, d, loc, j, k);
  }

  // ---------------------------------------------------------------- write

  function Quotient(a: nat, b: nat): nat
    requires b > 0
  {
    a / b
  }

  // needed_clusters, in 32-bit arithmetic.
  function NeededClusters(g: Geometry, offset: nat, size: nat): nat
    requires g.Valid()
  {
    Quotient((offset + size + g.ClusterSize() - 1) % TWO_32, g.ClusterSize())
  }

  // The byte count fat_node_read aims for: clamped to the file, if the 32-bit sum shows
  // that it must be.
  function ReadLength(fileSize: nat, offset: nat, size: nat): (r: nat)
    requires offset < fileSize
  {
    if (offset + size) % TWO_32 > fileSize then fileSize - offset else size
  }

  function NewSize(size: nat, offset: nat, written: nat): nat {
    if offset + written > size then offset + written else size
  }

  // The volume once the file's first cluster exists.
  ghost function WithFirst(s: State, first: u16, c: u16): State
    requires c < |s.t|
  {
    if first == 0 then Allocated(s, c) else s
  }

  /** fat_node_write on the file with first cluster `first` (0 for none yet), which
      becomes c: the chain grows as far as needed and possible, no other file changes, the
      bytes counted are stored, and on a reliable disk the chain's bytes are overwritten by
      as much as fits. */
  ghost predicate WriteDone(s: State, r: State, g: Geometry, first: u16, c: u16, offset: nat, data: seq<byte>,
                            written: nat, reliable: bool)
    requires Consistent(s, g) && Shaped(r, g)
  {
    && 2 <= c < Limit(g)
    && (first == 0 ==> c == FirstFree(s.t, Limit(g), 2) && c !in s.chains && Consistent(Allocated(s, c), g))
    && (first != 0 ==> c == first)
    && c in WithFirst(s, first, c).chains
    && var s1 := Grown(WithFirst(s, first, c), g, c, NeededClusters(g, offset, |data|));
       && r.t == s1.t && r.chains == s1.chains && r.dirs == s.dirs && c in r.chains && c !in r.dirs
       && FilesKept(s, r, g, c)
       && written <= Moved(|data|, offset, Span(|r.chains[c]|, g.ClusterSize()))
       && (written > 0 ==> Stored(r.disk, g, r.chains[c], offset, data[..written]))
       && (reliable ==>
             && written == Moved(|data|, offset, Span(|r.chains[c]|, g.ClusterSize()))
             && FileBytes(r.disk, g, r.chains[c]) == Overwrite(FileBytes(s.disk, g, r.chains[c]), offset, data))
  }

  /** The directory entries that carry the file's name belong to the file. */
  ghost predicate EntryFits(s: State, g: Geometry, d: u16, name: seq<byte>, first: u16)
    requires Consistent(s, g) && d in TreeOf(s, g)
  {
    FitsIn(TreeOf(s, g)[d], name, first)
  }

  ghost predicate FitsIn(v: seq<Slot>, name: seq<byte>, first: u16) {
    forall k :: 0 <= k < |v| && Matches(Named(name), v[k]) ==> FirstCluster(v[k]) == first && !IsDirectory(v[k])
  }

  // The file's chain is one of the volume's and no directory; without one it is empty.
  ghost predicate OpenAt(s: State, first: u16, size: nat) {
    && size < TWO_32
    && (first != 0 ==> first in s.chains && first !in s.dirs)
    && (first == 0 ==> size == 0)
  }

  /** A node stands for a file of the volume: its chain is open, its directory exists, and
      entries under its name there are its own. */
  ghost predicate LiveAt(s: State, g: Geometry, d: u16, name: seq<byte>, first: u16, size: nat)
    requires Consistent(s, g)
  {
    OpenAt(s, first, size) && d in TreeOf(s, g) && EntryFits(s, g, d, name, first)
  }

  // The tree v with the new size and first cluster in one entry of directory d of that name.
  ghost predicate SlotResized(v: map<u16, seq<Slot>>, w: map<u16, seq<Slot>>, d: u16, name: seq<byte>, c: u16,
                              size: nat)
    requires d in v && size < TWO_32
  {
    exists k: nat ::
      k < |v[d]| && Matches(Named(name), v[d][k]) && w == v[d := PutSlot(v[d], k, WithSize(v[d][k], c, size))]
  }

  /** What becomes of the file's directory entry: the tree is as before, or one entry of its
      name carries the new size and first cluster.  On a reliable disk, when bytes were
      written, it is the entry found under the name. */
  ghost predicate EntryUpdated(s: State, r: State, g: Geometry, d: u16, name: seq<byte>, c: u16, size: nat,
                               written: nat, reliable: bool)
    requires Consistent(s, g) && Shaped(r, g) && d in TreeOf(s, g) && size < TWO_32
  {
    && (TreeOf(r, g) == TreeOf(s, g) || (written > 0 && SlotResized(TreeOf(s, g), TreeOf(r, g), d, name, c, size)))
    && (reliable ==>
          var v := TreeOf(s, g)[d];
          var k := FirstMatch(Named(name), v);
          if written > 0 && k < |v| then TreeOf(r, g) == TreeOf(s, g)[d := PutSlot(v, k, WithSize(v[k], c, size))]
          else TreeOf(r, g) == TreeOf(s, g))
  }

  /** fat_node_write on the node (first, size) of that name, which becomes (c, n).  -1 means
      that no first cluster could be allocated. */
  ghost predicate FileWritten(s: State, r: State, g: Geometry, d: u16, name: seq<byte>, first: u16, size: nat, c: u16,
                              n: nat, offset: nat, data: seq<byte>, written: int, reliable: bool)
    requires Consistent(s, g) && Shaped(r, g) && d in TreeOf(s, g)
  {
    if written < 0 then r == s && c == first == 0 && n == size && FirstFree(s.t, Limit(g), 2) == Limit(g)
    else
      && n == NewSize(size, offset, written) < TWO_32
      && WriteDone(s, r, g, first, c, offset, data, written, reliable)
      && EntryUpdated(s, r, g, d, name, c, n, written, reliable)
      && (reliable ==> !r.dirty)
  }

  // The state behind the data loop, before the directory entry is updated.
  ghost predicate DataWritten(s: State, r: State, g: Geometry, first: u16, c: u16, offset: nat, data: seq<byte>,
                              written: nat, reliable: bool)
  {
    && Consistent(s, g) && Consistent(r, g) && TreeOf(r, g) == TreeOf(s, g)
    && c in r.chains && c !in r.dirs
    && WriteDone(s, r, g, first, c, offset, data, written, reliable)
  }

  // Chain, data and files after allocation, growth and the data loop.
  lemma WriteData(s: State, s0: State, s1: State, s2: State, g: Geometry, first: u16, c: u16, offset: nat,
                  data: seq<byte>, written: nat, reliable: bool)
    requires Consistent(s, g) && Consistent(s0, g) && Consistent(s1, g) && Consistent(s2, g) && 2 <= c < Limit(g)
    requires first == 0 ==> c == FirstFree(s.t, Limit(g), 2) && c !in s.chains
    requires first != 0 ==> c == first && c in s.chains
    requires c !in s.dirs && s0 == WithFirst(s, first, c) && s1 == Grown(s0, g, c, NeededClusters(g, offset, |data|))
    requires s2 == s1.(disk := s2.disk) && OnlyArea(s1.disk, s2.disk, g, s1.chains, c)
    requires written <= Moved(|data|, offset, Span(|s1.chains[c]|, g.ClusterSize()))
    requires written > 0 ==> Stored(s2.disk, g, s1.chains[c], offset, data[..written])
    requires reliable ==> written == Moved(|data|, offset, Span(|s1.chains[c]|, g.ClusterSize()))
    requires reliable ==>
               FileBytes(s2.disk, g, s1.chains[c]) == Overwrite(FileBytes(s1.disk, g, s1.chains[c]), offset, data)
    ensures WriteDone(s, s2, g, first, c, offset, data, written, reliable)
  {
    hide TreeOf, WellFormed, Owned, CacheAgrees, Laid, FilesKept, FileBytes, Span, FirstFree, Extended;
    hide NeededClusters, OnlyArea, Stored;
    FilesKeptByChains(s, s0, g, c);
    FilesKeptByChains(s0, s1, g, c);
    FilesKeptByArea(s1, s2.disk, g, c);
    FilesKeptTrans(s, s0, s1, g, c);
    FilesKeptTrans(s, s1, s2, g, c);
  }

  /** Putting the new size into the entry touches no file data. */
  lemma WriteEntry(s: State, s2: State, r: State, g: Geometry, d: u16, first: u16, c: u16, offset: nat,
                   data: seq<byte>, written: nat, reliable: bool)
    requires Consistent(s, g) && Shaped(s2, g) && Shaped(r, g)
    requires WriteDone(s, s2, g, first, c, offset, data, written, reliable)
    requires r == s2.(disk := r.disk, dirty := r.dirty)
    requires OnlyArea(s2.disk, r.disk, g, s2.chains, d) || OnlyFats(s2.disk, r.disk, g)
    requires (d == 0 || d in s2.dirs) && c !in s2.dirs
    ensures WriteDone(s, r, g, first, c, offset, data, written, reliable)
  {
    hide TreeOf, WellFormed, Owned, CacheAgrees, FileBytes, Span, FirstFree, Grown, NeededClusters, OnlyArea, OnlyFats;
    if OnlyArea(s2.disk, r.disk, g, s2.chains, d) {
      FilesKeptByArea(s2, r.disk, g, d);
      FilesKeptDirty(s2, s2.(disk := r.disk), r, g);
    } else {
      FilesKeptBySync(s2, r, g, 0);
    }
    assert FileBytes(r.disk, g, r.chains[c]) == FileBytes(s2.disk, g, s2.chains[c]);
    FilesKeptWiden(s2, r, g, c);
    FilesKeptTrans(s, s2, r, g, c);
  }

  // Equal apart from the dirty flag.
  lemma FilesKeptDirty(s: State, a: State, b: State, g: Geometry)
    requires Shaped(s, g) && Shaped(a, g) && Shaped(b, g) && b == a.(dirty := b.dirty) && FilesKept(s, a, g, 0)
    ensures FilesKept(s, b, g, 0)
  {
    hide FileBytes, WellFormed;
  }

  /** Entry k of directory d may own the chain c: it is no directory, and no other entry
      owns c. */
  ghost predicate MayTake(v: map<u16, seq<Slot>>, d: u16, k: nat, c: u16)
    requires d in v && k < |v[d]|
  {
    && !IsDirectory(v[d][k])
    && forall b, j: nat :: Owns(v, b, j) && FirstCluster(v[b][j]) == c ==> b == d && j == k
  }

  /** Storing c and a size in an entry keeps every chain's owner single if and only if the
      entry may own c. */
  lemma OwnedResized(v: map<u16, seq<Slot>>, chains: set<u16>, dirs: set<u16>, d: u16, k: nat, c: u16, size: nat)
    requires Owned(v, chains, dirs) && d in v && k < |v[d]| && Owning(v[d][k]) && size < TWO_32
    requires c in chains && c !in dirs && c != 0
    ensures Owned(v[d := PutSlot(v[d], k, WithSize(v[d][k], c, size))], chains, dirs) <==> MayTake(v, d, k, c)
  {
    hide WithSize, FirstCluster, IsDirectory, Owning, FileSize;
    var e := WithSize(v[d][k], c, size);
    ResizedOwning(v[d][k], c, size);
    var w := v[d := PutSlot(v[d], k, e)];
    forall b: u16, j: nat | b != d || j != k
      ensures Owns(w, b, j) <==> Owns(v, b, j)
      ensures Owns(w, b, j) ==> w[b][j] == v[b][j]
    {
    }
    assert Owns(w, d, k) && w[d][k] == e;
    if Owned(w, chains, dirs) {
      forall b: u16, j: nat | Owns(v, b, j) && FirstCluster(v[b][j]) == c
        ensures b == d && j == k
      {
      }
    }
  }

  lemma ResizedOwning(e: Slot, c: u16, size: nat)
    requires size < TWO_32
    ensures var r := WithSize(e, c, size);
            Owning(r) == Owning(e) && IsDirectory(r) == IsDirectory(e) && FirstCluster(r) == c
  {
    hide WithSize;
    ResizedSame(e, c, size);
  }

  /** The entry update keeps table, chains and cache in order, and the whole invariant if
      and only if nothing was stored or the entry may own the chain. */
  lemma ResizeStep(s: State, r: State, g: Geometry, tree: map<u16, seq<Slot>>, d: u16, k: nat, w: seq<Slot>, c: u16,
                   size: nat)
    requires Consistent(s, g) && tree == TreeOf(s, g) && d in tree && k < |tree[d]| && size < TWO_32
    requires c in s.chains && c !in s.dirs && Owning(tree[d][k]) && IsDir(s.chains, d)
    requires OnlyArea(s.disk, r.disk, g, s.chains, d) && OnDisk(r.disk, g) && r == s.(disk := r.disk)
    requires w == DirSlots(r.disk, g, s.chains, d)
    requires w == tree[d] || w == PutSlot(tree[d], k, WithSize(tree[d][k], c, size))
    ensures Sound(r, g) && TreeOf(r, g) == tree[d := w]
    ensures Consistent(r, g) <==> w == tree[d] || MayTake(tree, d, k, c)
  {
    hide WellFormed, Owned, DirSlots, FatCopy, Encode, Laid, WithSize, PutSlot, Owning, MayTake, Tree, FilesKept;
    TreeUpdate(s.disk, r.disk, g, s.chains, s.dirs, d, w);
    FatsUntouched(s.disk, r.disk, g, s.chains, d, 0);
    NotZero(s, g, c);
    OwnedResized(tree, s.chains.Keys, s.dirs, d, k, c, size);
    assert w == tree[d] ==> tree[d := w] == tree;
  }

  lemma NotZero(s: State, g: Geometry, c: u16)
    requires Shaped(s, g) && c in s.chains
    ensures c != 0
  {
  }

  // The tree after an entry update: every chain's owner is still single.
  ghost predicate Singly(v: map<u16, seq<Slot>>, w: map<u16, seq<Slot>>, d: u16, name: seq<byte>, c: u16, size: nat)
    requires d in v && size < TWO_32
  {
    || w == v
    || exists k: nat :: k < |v[d]| && Matches(Named(name), v[d][k]) && MayTake(v, d, k, c)
                        && w == v[d := PutSlot(v[d], k, WithSize(v[d][k], c, size))]
  }

  // Which entry was updated can be told from the tree, if it changed.
  lemma SinglyAt(v: map<u16, seq<Slot>>, d: u16, name: seq<byte>, k: nat, c: u16, size: nat)
    requires d in v && k < |v[d]| && Matches(Named(name), v[d][k]) && size < TWO_32
    ensures var w := v[d := PutSlot(v[d], k, WithSize(v[d][k], c, size))];
            Singly(v, w, d, name, c, size) <==> w[d] == v[d] || MayTake(v, d, k, c)
  {
    hide WithSize, MayTake, Matches;
    var w := v[d := PutSlot(v[d], k, WithSize(v[d][k], c, size))];
    if w[d] == v[d] {
      assert w == v;
    } else if Singly(v, w, d, name, c, size) {
      var j: nat :| j < |v[d]| && Matches(Named(name), v[d][j]) && MayTake(v, d, j, c)
                    && w == v[d := PutSlot(v[d], j, WithSize(v[d][j], c, size))];
    }
  }

  lemma SinglySame(v: map<u16, seq<Slot>>, d: u16, name: seq<byte>, c: u16, size: nat)
    requires d in v && size < TWO_32
    ensures Singly(v, v, d, name, c, size)
  {
  }

  lemma ChainIs(s: State, g: Geometry, c: u16)
    requires Shaped(s, g) && c in s.chains
    ensures |s.chains[c]| > 0 && s.chains[c][0] == c && IsChain(s.t, Limit(g), s.chains[c]) && 2 <= c < Limit(g)
  {
  }

  lemma ChainOf(s: State, g: Geometry, c: u16)
    requires Consistent(s, g) && c in s.chains
    ensures |s.chains[c]| > 0 && s.chains[c][0] == c && IsChain(s.t, Limit(g), s.chains[c]) && 2 <= c < Limit(g)
  {
  }

  lemma ChainIsArea(a: seq<Sector>, b: seq<Sector>, g: Geometry, m: map<u16, seq<u16>>, c: u16)
    requires c in m && c != 0 && OnlyChain(a, b, g, m[c])
    ensures OnlyArea(a, b, g, m, c)
  {
  }

  /** What was written ends inside the chain, far below 2^32. */
  lemma WriteBound(s: State, r: State, g: Geometry, first: u16, c: u16, offset: nat, data: seq<byte>, written: nat,
                   reliable: bool)
    requires Consistent(s, g) && Shaped(r, g) && offset < TWO_32
    requires WriteDone(s, r, g, first, c, offset, data, written, reliable)
    ensures offset + written < TWO_32
  {
    hide TreeOf, Owned, CacheAgrees, FileBytes, Grown, Stored;
    if written > 0 {
      var chain := r.chains[c];
      ChainShort(chain, Limit(g));
      SpanMono(|chain|, 0x10000, g.ClusterSize());
      SpanIsProduct(0x10000, g.ClusterSize());
    }
  }

  // The clusters below n.
  ghost function Below(n: nat): (r: set<u16>)
    requires n <= 0x10000
    ensures |r| == n && forall c: u16 :: c in r <==> c < n
  {
    if n == 0 then {} else Below(n - 1) + {n - 1}
  }

  // Distinct clusters below n: at most n of them.
  lemma ChainShort(s: seq<u16>, n: nat)
    requires n <= 0x10000 && Distinct(s) && forall i :: 0 <= i < |s| ==> s[i] < n
    ensures |s| <= n
  {
    DistinctCount(s);
    assert Elements(s) <= Below(n);
    SubsetCount(Elements(s), Below(n));
  }

  lemma {:induction false} DistinctCount(s: seq<u16>)
    requires Distinct(s)
    ensures |Elements(s)| == |s|
  {
    if s != [] {
      var init, last := s[..|s| - 1], s[|s| - 1];
      assert s == init + [last];
      DistinctCount(init);
      ElementsSnoc(init, last);
      assert last !in Elements(init);
    }
  }

  lemma {:induction false} SubsetCount(a: set<u16>, b: set<u16>)
    requires a <= b
    ensures |a| <= |b|
  {
    if a != {} {
      var x :| x in a;
      SubsetCount(a - {x}, b - {x});
    }
  }

  // ---------------------------------------------------------------- live nodes

  /** When the node that finddir returns for this name stands for its file: the name has no
      space inside a field, or no entry goes by the name as printed, or the file has no
      cluster and neither has the file that goes by the printed name. */
  ghost predicate Reopens(v: seq<Slot>, name: seq<byte>, first: u16) {
    var j := FirstMatch(Named(ToFat(ToStr(ToFat(name)))), v);
    || (NoInnerSpace(Base(name), 8) && NoInnerSpace(Ext(name), 3))
    || j == |v|
    || (first == 0 && FirstCluster(v[j]) == 0 && !IsDirectory(v[j]))
  }

  /** What a valid entry found under a name gives: a live directory, or an open file, which
      is live under its printed name if and only if the name reopens. */
  lemma FoundEntry(s: State, g: Geometry, d: u16, name: seq<byte>, k: nat)
    requires Consistent(s, g) && d in TreeOf(s, g) && IsCString(name)
    requires k < |TreeOf(s, g)[d]| && Matches(Named(ToFat(name)), TreeOf(s, g)[d][k])
    ensures var e := TreeOf(s, g)[d][k];
            if IsDirectory(e) then FirstCluster(e) == 0 || FirstCluster(e) in s.dirs
            else OpenAt(s, FirstCluster(e), FileSize(e))
    ensures var v := TreeOf(s, g)[d];
            UniqueNames(v) && !IsDirectory(v[k]) ==>
              (LiveAt(s, g, d, ToFat(ToStr(ToFat(name))), FirstCluster(v[k]), FileSize(v[k]))
               <==> Reopens(v, name, FirstCluster(v[k])))
    ensures IsCString(ToStr(ToFat(name)))
  {
    hide TreeOf, WellFormed, CacheAgrees, Laid, ToFat, ToStr, FirstMatch;
    var v := TreeOf(s, g)[d];
    NeverDotOrNul(name);
    PrintedIsString(name);
    assert NameOf(v[k])[0] == ToFat(name)[0];
    SizeFits(v[k]);
    assert FirstCluster(v[k]) != 0 ==> Owns(TreeOf(s, g), d, k);
    if UniqueNames(v) && !IsDirectory(v[k]) {
      ReopensFits(TreeOf(s, g), s.chains.Keys, s.dirs, d, name, k);
    }
  }

  lemma MatchName(e: Slot, name: seq<byte>)
    requires Matches(Named(name), e)
    ensures NameOf(e) == name
  {
  }

  lemma SizeFits(e: Slot)
    ensures FileSize(e) < TWO_32
  {
  }

  /** Entries under the printed name belong to the file found under the name if and only if
      the name reopens. */
  lemma ReopensFits(t: map<u16, seq<Slot>>, chains: set<u16>, dirs: set<u16>, d: u16, name: seq<byte>, k: nat)
    requires Owned(t, chains, dirs) && d in t && UniqueNames(t[d]) && IsCString(name)
    requires k < |t[d]| && Matches(Named(ToFat(name)), t[d][k]) && !IsDirectory(t[d][k])
    ensures FitsIn(t[d], ToFat(ToStr(ToFat(name))), FirstCluster(t[d][k]))
            <==> Reopens(t[d], name, FirstCluster(t[d][k]))
  {
    hide ToFat, ToStr, FirstMatch, FirstCluster, IsDirectory, UniqueNames, NoInnerSpace;
    var v, f := t[d], ToFat(name);
    var x := ToFat(ToStr(f));
    NameRoundTrip(name);
    NeverDotOrNul(name);
    PrintedIsString(name);
    NeverDotOrNul(ToStr(f));
    var j := FirstMatch(Named(x), v);
    if j < |v| {
      OnlyMatch(v, x, j);
      assert NameOf(v[j])[0] == x[0] && NameOf(v[k])[0] == f[0];
      assert x == f <==> j == k by {
        if x == f {
          OnlyMatch(v, x, k);
        }
      }
      assert FirstCluster(v[j]) != 0 ==> Owns(t, d, j);
      assert FirstCluster(v[k]) != 0 ==> Owns(t, d, k);
    }
  }

  /** What fat_node_create returns on a reliable disk stands for the new file. */
  lemma CreateGivesLive(s: State, r: State, g: Geometry, d: u16, name: seq<byte>, first: u16)
    requires Consistent(s, g) && Consistent(r, g) && d in TreeOf(s, g) && |name| == 11
    requires CreateDone(s, r, g, d, name, first, true) && first != 0
    ensures LiveAt(r, g, d, name, first, 0)
  {
    hide TreeOf, WellFormed, Owned, CacheAgrees, FilesKept, FirstFree, NewEntry, FirstCluster, IsValidEntry, Laid;
    hide SlotFilled;
    var v, e := TreeOf(s, g)[d], NewEntry(name, ATTR_FILE, first);
    assert forall k :: 0 <= k < |v| ==> !Matches(Named(name), v[k]);
    FreshIsNoDir(s, g, first);
  }

  lemma FreshIsNoDir(s: State, g: Geometry, first: u16)
    requires Consistent(s, g) && first !in s.chains
    ensures first !in s.dirs
  {
  }

  /** fat_node_write keeps its node live, on any disk if the file had a cluster; otherwise
      if bytes were written, the disk did not fail and the name is unique. */
  lemma WriteKeepsLive(s: State, r: State, g: Geometry, d: u16, name: seq<byte>, first: u16, c: u16, size: nat,
                       offset: nat, data: seq<byte>, written: nat, reliable: bool)
    requires Consistent(s, g) && Consistent(r, g) && LiveAt(s, g, d, name, first, size)
             && NewSize(size, offset, written) < TWO_32
    requires WriteDone(s, r, g, first, c, offset, data, written, reliable)
    requires EntryUpdated(s, r, g, d, name, c, NewSize(size, offset, written), written, reliable)
    requires first != 0 || (reliable && written > 0 && UniqueNames(TreeOf(s, g)[d]))
    ensures LiveAt(r, g, d, name, c, NewSize(size, offset, written))
  {
    hide TreeOf, WellFormed, Owned, CacheAgrees, FilesKept, FirstFree, Laid, Grown, Span, FileBytes, WithSize, FitsIn;
    hide FirstMatch, Matches, PutSlot, UniqueNames;
    var v, n := TreeOf(s, g)[d], NewSize(size, offset, written);
    if TreeOf(r, g) != TreeOf(s, g) {
      var k: nat :| k < |v| && Matches(Named(name), v[k])
                    && TreeOf(r, g) == TreeOf(s, g)[d := PutSlot(v, k, WithSize(v[k], c, n))];
      FitsResized(v, name, first, k, c, n);
    } else if first == 0 {
      UnchangedEntry(v, name, first, c, n);
    }
  }

  lemma FitsResized(v: seq<Slot>, name: seq<byte>, first: u16, k: nat, c: u16, size: nat)
    requires FitsIn(v, name, first) && k < |v| && Matches(Named(name), v[k]) && size < TWO_32
    requires c == first || UniqueNames(v)
    ensures FitsIn(PutSlot(v, k, WithSize(v[k], c, size)), name, c)
  {
    hide WithSize, NameOf, FirstCluster, IsDirectory, IsValidEntry;
    ResizedEntry(v[k], c, size);
    if c != first {
      OnlyMatch(v, name, k);
    }
  }

  lemma WrittenOpen(s: State, r: State, g: Geometry, d: u16, name: seq<byte>, first: u16, size: nat, c: u16, n: nat,
                    offset: nat, data: seq<byte>, written: int, reliable: bool)
    requires Consistent(s, g) && Shaped(r, g) && OpenAt(s, first, size) && d in TreeOf(s, g)
    requires FileWritten(s, r, g, d, name, first, size, c, n, offset, data, written, reliable)
    ensures OpenAt(r, c, n)
  {
    hide TreeOf, WellFormed, Owned, CacheAgrees, FilesKept, FirstFree, Laid, Grown, Span, FileBytes, Stored;
    hide EntryUpdated;
  }

  lemma WrittenLive(s: State, r: State, g: Geometry, d: u16, name: seq<byte>, first: u16, size: nat, c: u16, n: nat,
                    offset: nat, data: seq<byte>, written: int, reliable: bool)
    requires Consistent(s, g) && Consistent(r, g) && LiveAt(s, g, d, name, first, size)
    requires FileWritten(s, r, g, d, name, first, size, c, n, offset, data, written, reliable)
    ensures first != 0 || written < 0 || (reliable && written > 0 && UniqueNames(TreeOf(s, g)[d])) ==>
              LiveAt(r, g, d, name, c, n)
  {
    hide TreeOf, WellFormed, Owned, CacheAgrees, FilesKept, FirstFree, Laid, Grown, Span, FileBytes, Stored, FitsIn;
    hide UniqueNames, EntryUpdated;
    if written >= 0 && (first != 0 || (reliable && written > 0 && UniqueNames(TreeOf(s, g)[d]))) {
      WriteKeepsLive(s, r, g, d, name, first, c, size, offset, data, written, reliable);
    }
  }

  lemma ResizedEntry(e: Slot, c: u16, size: nat)
    requires size < TWO_32
    ensures var r := WithSize(e, c, size);
            NameOf(r) == NameOf(e) && FirstCluster(r) == c && IsDirectory(r) == IsDirectory(e)
            && IsValidEntry(r) == IsValidEntry(e)
  {
    ResizedSame(e, c, size);
  }

  // With unique names, at most one entry has the name.
  lemma OnlyMatch(v: seq<Slot>, name: seq<byte>, k: nat)
    requires UniqueNames(v) && k < |v| && Matches(Named(name), v[k])
    ensures forall j :: 0 <= j < |v| && Matches(Named(name), v[j]) ==> j == k
  {
  }

  // An entry that already had the new first cluster, or no entry at all.
  lemma UnchangedEntry(v: seq<Slot>, name: seq<byte>, first: u16, c: u16, size: nat)
    requires UniqueNames(v) && FitsIn(v, name, first) && size < TWO_32
    requires var k := FirstMatch(Named(name), v); k < |v| ==> PutSlot(v, k, WithSize(v[k], c, size)) == v
    ensures FitsIn(v, name, c)
  {
    hide NameOf, IsValidEntry, WithSize, FirstCluster;
    var k := FirstMatch(Named(name), v);
    if k < |v| {
      OnlyMatch(v, name, k);
      assert v[k] == WithSize(v[k], c, size);
    }
  }

  /** A live node's entry may own its chain, so writing through a live node keeps the
      volume's invariant. */
  lemma LiveSingly(s: State, r: State, g: Geometry, d: u16, name: seq<byte>, first: u16, size: nat, c: u16, n: nat,
                   offset: nat, data: seq<byte>, written: int, reliable: bool)
    requires Consistent(s, g) && Shaped(r, g) && LiveAt(s, g, d, name, first, size) && |name| == 11 && name[0] != DOT
    requires FileWritten(s, r, g, d, name, first, size, c, n, offset, data, written, reliable)
    ensures n < TWO_32 && Singly(TreeOf(s, g), TreeOf(r, g), d, name, c, n)
  {
    hide TreeOf, WellFormed, CacheAgrees, FilesKept, FirstFree, Laid, Grown, Span, FileBytes, Stored, WithSize;
    hide FirstMatch, PutSlot;
    hide Owned, FitsIn, Matches, MayTake;
    var v := TreeOf(s, g);
    if written >= 0 && TreeOf(r, g) != v {
      var k: nat :| k < |v[d]| && Matches(Named(name), v[d][k])
                    && TreeOf(r, g) == v[d := PutSlot(v[d], k, WithSize(v[d][k], c, n))];
      FitsTake(v, s.chains.Keys, s.dirs, d, name, first, k, c);
    }
  }

  // An entry of a name whose entries belong to the file may own the file's chain.
  lemma FitsTake(v: map<u16, seq<Slot>>, chains: set<u16>, dirs: set<u16>, d: u16, name: seq<byte>, first: u16, k: nat,
                 c: u16)
    requires Owned(v, chains, dirs) && d in v && FitsIn(v[d], name, first) && |name| == 11 && name[0] != DOT
    requires k < |v[d]| && Matches(Named(name), v[d][k]) && (if first == 0 then c !in chains else c == first)
    ensures MayTake(v, d, k, c)
  {
    hide FirstCluster, IsDirectory, Sized;
    assert NameOf(v[d][k])[0] == name[0];
    assert first != 0 ==> Owns(v, d, k);
  }

  lemma CreateOpens(s: State, r: State, g: Geometry, d: u16, name: seq<byte>, first: u16, reliable: bool)
    requires Consistent(s, g) && Consistent(r, g) && d in TreeOf(s, g) && |name| == 11
    requires CreateDone(s, r, g, d, name, first, reliable) && first != 0
    ensures OpenAt(r, first, 0)
  {
    hide TreeOf, WellFormed, Owned, CacheAgrees, FilesKept, FirstFree, Laid, SlotFilled;
    FreshIsNoDir(s, g, first);
  }
}
