/**
 The invariant of the mounted FAT volume and its preservation by every primitive
 change the driver makes: allocate, link, free, change one directory slot, write file
 data, initialise a new directory, sync.
 */
module FatState {
  import opened FatTable
  import opened FatGeometry
  import opened FatData
  import opened FatDir
  import opened FatFs

  /** Disk image, in-memory table and dirty flag, with the chains the table holds and
      the first clusters of the subdirectories among them. */
  datatype State = State(
    disk: seq<Sector>,
    t: seq<u16>,
    dirty: bool,
    chains: map<u16, seq<u16>>,
    dirs: set<u16>)

  function Limit(g: Geometry): nat {
    g.totalClusters + 2
  }

  ghost predicate Shaped(s: State, g: Geometry) {
    && OnDisk(s.disk, g)
    && |s.t| == 256 * g.sectorsPerFat
    && WellFormed(s.t, Limit(g), s.chains)
    && Laid(g, s.chains)
    && s.dirs <= s.chains.Keys
  }

  ghost function TreeOf(s: State, g: Geometry): (r: map<u16, seq<Slot>>)
    requires Shaped(s, g)
    ensures r.Keys == s.dirs + {0}
  {
    Tree(s.disk, g, s.chains, s.dirs)
  }

  // A clean table agrees with the first FAT copy on disk.
  ghost predicate CacheAgrees(s: State, g: Geometry)
    requires OnDisk(s.disk, g)
  {
    !s.dirty ==> FatCopy(s.disk, g, 0) == Encode(s.t)
  }

  // The table, its chains and the cache are in order, whatever the directories say.
  ghost predicate Sound(s: State, g: Geometry) {
    Shaped(s, g) && CacheAgrees(s, g)
  }

  ghost predicate Consistent(s: State, g: Geometry) {
    && Shaped(s, g)
    && Owned(TreeOf(s, g), s.chains.Keys, s.dirs)
    && CacheAgrees(s, g)
  }

  // ---------------------------------------------------------------- the changes

  ghost function Allocated(s: State, c: u16): State
    requires c < |s.t|
  {
    s.(t := s.t[c := EOC], dirty := true, chains := s.chains[c := [c]])
  }

  lemma AllocStep(s: State, g: Geometry, c: u16)
    requires Consistent(s, g) && 2 <= c < Limit(g) && s.t[c] == FREE
    ensures c !in s.chains
    ensures var r := Allocated(s, c);
            Consistent(r, g) && TreeOf(r, g) == TreeOf(s, g) && NoOwner(TreeOf(s, g), c)
  {
    hide IsChain, Tree, Owned, FatCopy, Encode, FreeSet;
    var r := Allocated(s, c);
    AllocKeepsWellFormed(s.t, Limit(g), s.chains, c);
    WellFormedIsLaid(g, r.t, r.chains);
    TreeChains(s.disk, g, s.chains, r.chains, s.dirs);
    OwnedGrow(TreeOf(s, g), s.chains.Keys, s.dirs, c);
    assert r.chains.Keys == s.chains.Keys + {c};
  }

  ghost function Freed(s: State, g: Geometry, c: u16): State
    requires Limit(g) <= |s.t|
  {
    s.(t := FreeFrom(s.t, Limit(g), c), dirty := true, chains := s.chains - {c}, dirs := s.dirs - {c})
  }

  lemma FreeStep(s: State, g: Geometry, c: u16)
    requires Consistent(s, g) && c in s.chains && NoOwner(TreeOf(s, g), c)
    ensures var r := Freed(s, g, c);
            && Consistent(r, g) && TreeOf(r, g) == TreeOf(s, g) - {c}
            && FreeSet(r.t, Limit(g)) == FreeSet(s.t, Limit(g)) + Elements(s.chains[c])
  {
    hide IsChain, DirSlots, Owned, FatCopy, Encode, FreeSet, FreeFrom;
    var r := Freed(s, g, c);
    FreeKeepsWellFormed(s.t, Limit(g), s.chains, c);
    WellFormedIsLaid(g, r.t, r.chains);
    OwnedShrink(TreeOf(s, g), s.chains.Keys, s.dirs, c);
    TreeDrop(s.disk, g, s.chains, s.dirs, c);
    assert r.chains.Keys == s.chains.Keys - {c};
  }

  lemma TreeDrop(disk: seq<Sector>, g: Geometry, m: map<u16, seq<u16>>, dirs: set<u16>, c: u16)
    requires OnDisk(disk, g) && Laid(g, m) && dirs <= m.Keys && c in m && Laid(g, m - {c})
    ensures Tree(disk, g, m - {c}, dirs - {c}) == Tree(disk, g, m, dirs) - {c}
  {
    hide Slots, FileBytes, RootBytes;
    assert c != 0;
  }

  ghost function Grown(s: State, g: Geometry, c: u16, needed: nat): State
    requires Shaped(s, g) && c in s.chains && g.Valid()
  {
    var (u, r) := Extended(s.t, Limit(g), s.chains[c], needed);
    s.(t := u, dirty := s.dirty || |r| > |s.chains[c]|, chains := s.chains[c := r])
  }

  lemma GrowStep(s: State, g: Geometry, c: u16, needed: nat)
    requires Consistent(s, g) && c in s.chains && c !in s.dirs
    ensures var r := Grown(s, g, c, needed);
            Consistent(r, g) && TreeOf(r, g) == TreeOf(s, g)
  {
    hide IsChain, Tree, Owned, FatCopy, Encode, Extended;
    var r := Grown(s, g, c, needed);
    ExtendKeepsWellFormed(s.t, Limit(g), s.chains, c, needed);
    WellFormedIsLaid(g, r.t, r.chains);
    TreeChains(s.disk, g, s.chains, r.chains, s.dirs);
    assert r.chains.Keys == s.chains.Keys;
  }

  /** One slot of directory d becomes e. */
  lemma SlotStep(s: State, g: Geometry, disk: seq<Sector>, d: u16, k: nat, e: Slot)
    requires Consistent(s, g) && d in TreeOf(s, g) && k < |TreeOf(s, g)[d]|
    requires OnlyArea(s.disk, disk, g, s.chains, d) && Sized(e)
    requires DirSlots(disk, g, s.chains, d) == PutSlot(TreeOf(s, g)[d], k, e)
    requires Owning(e) && FirstCluster(e) != 0 ==>
               && FirstCluster(e) in s.chains && (IsDirectory(e) <==> FirstCluster(e) in s.dirs)
               && (NoOwner(TreeOf(s, g), FirstCluster(e))
                   || (Owns(TreeOf(s, g), d, k) && FirstCluster(TreeOf(s, g)[d][k]) == FirstCluster(e)))
    ensures var r := s.(disk := disk);
            Consistent(r, g) && TreeOf(r, g) == TreeOf(s, g)[d := PutSlot(TreeOf(s, g)[d], k, e)]
  {
    hide WellFormed, Tree, Owned, DirSlots, FatCopy, Encode, Owning, FirstCluster, IsDirectory, Sized;
    TreeUpdate(s.disk, disk, g, s.chains, s.dirs, d, PutSlot(TreeOf(s, g)[d], k, e));
    OwnedPut(TreeOf(s, g), s.chains.Keys, s.dirs, d, k, e);
    FatsUntouched(s.disk, disk, g, s.chains, d, 0);
  }

  /** The data of a chain that is no directory changes. */
  lemma DataStep(s: State, g: Geometry, disk: seq<Sector>, c: u16)
    requires Consistent(s, g) && c in s.chains && c !in s.dirs
    requires OnlyArea(s.disk, disk, g, s.chains, c)
    ensures var r := s.(disk := disk);
            Consistent(r, g) && TreeOf(r, g) == TreeOf(s, g)
  {
    hide WellFormed, Tree, Owned, FatCopy, Encode;
    TreeFrame(s.disk, disk, g, s.chains, s.dirs, c);
    FatsUntouched(s.disk, disk, g, s.chains, c, 0);
  }

  /** A fresh chain whose slots own nothing becomes a directory. */
  lemma PromoteStep(s: State, g: Geometry, c: u16)
    requires Consistent(s, g) && c in s.chains && c !in s.dirs && NoOwner(TreeOf(s, g), c)
    requires forall k :: 0 <= k < |DirSlots(s.disk, g, s.chains, c)| ==> !Owning(DirSlots(s.disk, g, s.chains, c)[k])
    ensures var r := s.(dirs := s.dirs + {c});
            && Consistent(r, g) && NoOwner(TreeOf(r, g), c)
            && TreeOf(r, g) == TreeOf(s, g)[c := DirSlots(s.disk, g, s.chains, c)]
  {
    hide WellFormed, DirSlots, FatCopy, Encode, Owning, FirstCluster, IsDirectory;
    var r := s.(dirs := s.dirs + {c});
    var v, w := TreeOf(s, g), TreeOf(r, g);
    assert w == v[c := DirSlots(s.disk, g, s.chains, c)];
    forall d: u16, k: nat | Owns(w, d, k)
      ensures Owns(v, d, k) && w[d][k] == v[d][k]
    {
    }
  }

  /** The FAT copies are rewritten; a table that ends up clean agrees with the first. */
  lemma SyncStep(s: State, g: Geometry, disk: seq<Sector>, dirty: bool)
    requires Sound(s, g) && OnlyFats(s.disk, disk, g)
    requires !dirty ==> FatCopy(disk, g, 0) == Encode(s.t)
    ensures var r := s.(disk := disk, dirty := dirty);
            Sound(r, g) && TreeOf(r, g) == TreeOf(s, g) && (Consistent(r, g) <==> Consistent(s, g))
  {
    hide WellFormed, Tree, Owned, FatCopy, Encode;
    TreeSynced(s.disk, disk, g, s.chains, s.dirs);
  }

  // ---------------------------------------------------------------- file data

  // The sectors in front of the FATs, the boot sector among them.
  ghost predicate BootKept(a: seq<Sector>, b: seq<Sector>, g: Geometry) {
    |a| == |b| && forall l :: 0 <= l < |a| && l < g.fatStart ==> b[l] == a[l]
  }

  /** Every chain of a that is no directory, save `except`, is a chain of b with the
      same bytes, and so is the boot area. */
  ghost predicate FilesKept(a: State, b: State, g: Geometry, except: u16)
    requires Shaped(a, g) && Shaped(b, g)
  {
    && BootKept(a.disk, b.disk, g)
    && forall c :: c in a.chains && c !in a.dirs && c != except ==>
         c in b.chains && b.chains[c] == a.chains[c] && c !in b.dirs
         && FileBytes(b.disk, g, b.chains[c]) == FileBytes(a.disk, g, a.chains[c])
  }

  // A write to a directory or a file leaves the boot area alone.
  lemma BootKeptByArea(a: seq<Sector>, b: seq<Sector>, g: Geometry, m: map<u16, seq<u16>>, c: u16)
    requires g.Valid() && Laid(g, m) && IsDir(m, c) && OnlyArea(a, b, g, m, c)
    ensures BootKept(a, b, g)
  {
    hide Span, InArea;
    forall l | 0 <= l < |a| && l < g.fatStart
      ensures !InArea(g, m, c, l)
    {
      if c == 0 {
        BootIsNotRoot(g, m, l);
      } else {
        ChainBehind(g, m, c, l);
      }
    }
  }

  lemma BootIsNotRoot(g: Geometry, m: map<u16, seq<u16>>, l: nat)
    requires g.Valid() && l < g.fatStart
    ensures !InArea(g, m, 0, l)
  {
  }

  lemma FilesKeptTrans(a: State, b: State, c: State, g: Geometry, except: u16)
    requires Shaped(a, g) && Shaped(b, g) && Shaped(c, g)
    requires FilesKept(a, b, g, except) && FilesKept(b, c, g, except)
    ensures FilesKept(a, c, g, except)
  {
    hide FileBytes, WellFormed, Laid;
  }

  lemma FilesKeptByArea(a: State, disk: seq<Sector>, g: Geometry, c: u16)
    requires Shaped(a, g) && IsDir(a.chains, c) && OnlyArea(a.disk, disk, g, a.chains, c)
    ensures FilesKept(a, a.(disk := disk), g, c)
    ensures c in a.dirs ==> FilesKept(a, a.(disk := disk), g, 0)
  {
    hide FileBytes, WellFormed, BootKept;
    BootKeptByArea(a.disk, disk, g, a.chains, c);
    forall d | d in a.chains && d != c
      ensures FileBytes(disk, g, a.chains[d]) == FileBytes(a.disk, g, a.chains[d])
    {
      OtherChain(a.disk, disk, g, a.chains, c, d);
    }
  }

  lemma FilesKeptBySync(a: State, b: State, g: Geometry, except: u16)
    requires Shaped(a, g) && OnlyFats(a.disk, b.disk, g)
    requires b == a.(disk := b.disk, dirty := b.dirty)
    ensures FilesKept(a, b, g, except)
  {
    hide FileBytes, WellFormed;
    forall d | d in a.chains
      ensures FileBytes(b.disk, g, a.chains[d]) == FileBytes(a.disk, g, a.chains[d])
    {
      SyncFrame(a.disk, b.disk, g, a.chains, d);
    }
  }

  // A table and its chains may change elsewhere while the disk stays.
  lemma FilesKeptByChains(a: State, b: State, g: Geometry, except: u16)
    requires Shaped(a, g) && Shaped(b, g) && a.disk == b.disk && b.dirs <= a.dirs + {except}
    requires forall c :: c in a.chains && c != except ==> c in b.chains && b.chains[c] == a.chains[c]
    ensures FilesKept(a, b, g, except)
  {
    hide FileBytes, WellFormed, Laid;
  }
}
