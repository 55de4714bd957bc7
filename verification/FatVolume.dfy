/**
 The FAT driver's file operations (fs/fat.c): lookup, create, mkdir, unlink, read and
 write on a mounted volume, each of which keeps the volume's invariant whatever the
 disk does, and does exactly what it promises on a disk that works.
 */
module FatVolume {
  import opened FatTable
  import opened FatGeometry
  import opened FatData
  import opened FatIo
  import opened FatNames
  import opened FatDir
  import opened FatFs
  import opened FatState
  import opened FatSlots
  import opened FatOps

  /** An open file: a vfs_node_t of type VFS_FILE with its fat_node_data_t.  `dir` is the
      first cluster of its parent directory. */
  class FileNode {
    const name: seq<byte>
    const dir: u16
    var size: nat
    var first: u16

    constructor (name_: seq<byte>, dir_: u16, size_: nat, first_: u16)
      ensures name == name_ && dir == dir_ && size == size_ && first == first_
    {
      name, dir, size, first := name_, dir_, size_, first_;
    }
  }

  class Volume {
    const g: Geometry
    const fat: ClusterTable
    const disk: Disk
    ghost var chains: map<u16, seq<u16>>
    ghost var dirs: set<u16>

    ghost function S(): State
      reads this, fat, fat.table, disk
    {
      State(disk.sectors, fat.T(), fat.dirty, chains, dirs)
    }

    // The table, its chains and the cache are in order.
    ghost predicate Intact()
      reads this, fat, fat.table, disk
    {
      fat.Valid() && fat.n == Limit(g) && Sound(S(), g)
    }

    ghost predicate Valid()
      reads this, fat, fat.table, disk
    {
      fat.Valid() && fat.n == Limit(g) && Consistent(S(), g)
    }

    // The directory with first cluster d: the root, or a live subdirectory.
    ghost predicate IsOpenDir(d: u16)
      reads this
    {
      d == 0 || d in dirs
    }

    ghost function Dir(d: u16): seq<Slot>
      requires Valid() && IsOpenDir(d)
      reads this, fat, fat.table, disk
    {
      TreeOf(S(), g)[d]
    }

    constructor (g_: Geometry, fat_: ClusterTable, disk_: Disk, ghost chains_: map<u16, seq<u16>>,
                 ghost dirs_: set<u16>)
      requires fat_.Valid() && fat_.n == Limit(g_)
      requires Consistent(State(disk_.sectors, fat_.T(), fat_.dirty, chains_, dirs_), g_)
      ensures Valid() && g == g_ && fat == fat_ && disk == disk_ && chains == chains_ && dirs == dirs_
    {
      g, fat, disk, chains, dirs := g_, fat_, disk_, chains_, dirs_;
    }

    method AllocChain() returns (c: u16)
      requires Valid()
      modifies this, fat, fat.table
      ensures Valid() && TreeOf(S(), g) == TreeOf(old(S()), g)
      ensures var f := FirstFree(old(fat.T()), Limit(g), 2);
              if f == Limit(g) then c == 0 && S() == old(S())
              else c == f && c !in old(chains) && S() == Allocated(old(S()), c) && NoOwner(TreeOf(S(), g), c)
    {
      hide Consistent, Tree, Owned, NoOwner, WellFormed;
      ghost var s := S();
      assert Consistent(s, g);
      c := fat.AllocCluster();
      if c != 0 {
        ShapedOf(s, g);
        AllocStep(s, g, c);
        chains := chains[c := [c]];
        assert S() == Allocated(s, c);
      }
    }

    // Free the chain of c, which no entry owns; cluster 0 stands for no chain.
    method FreeChain(c: u16)
      requires Valid() && (c == 0 || (c in chains && NoOwner(TreeOf(S(), g), c)))
      modifies this, fat, fat.table
      ensures Valid()
      ensures c == 0 ==> S() == old(S())
      ensures c != 0 ==> && S() == Freed(old(S()), g, c) && TreeOf(S(), g) == TreeOf(old(S()), g) - {c}
                         && FreeSet(fat.T(), Limit(g)) == FreeSet(old(fat.T()), Limit(g)) + Elements(old(chains)[c])
    {
      hide Consistent, Tree, Owned, NoOwner, WellFormed;
      ghost var s := S();
      ShapedOf(s, g);
      if c != 0 {
        FreeStep(s, g, c);
        FreeChanges(s, g, c);
      }
      fat.FreeClusterChain(c);
      if c != 0 {
        chains, dirs := chains - {c}, dirs - {c};
        assert S() == Freed(s, g, c);
      }
    }

    // fat_sync
    method SyncTable() returns (ok: bool)
      requires Intact()
      modifies fat, disk
      ensures Intact() && TreeOf(S(), g) == TreeOf(old(S()), g)
      ensures Valid() <==> old(Valid())
      ensures OnlyFats(old(disk.sectors), disk.sectors, g)
      ensures fat.T() == old(fat.T())
      ensures old(disk.Reliable()) ==> disk.Reliable() && ok && !fat.dirty
      ensures old(fat.dirty) && ok ==> forall i :: 0 <= i < g.numFats ==> FatCopy(disk.sectors, g, i) == Encode(fat.T())
    {
      hide Tree, Owned, WellFormed, FatCopy, Encode, Consistent;
      ghost var s := S();
      ok := Sync(g, disk, fat);
      SyncStep(s, g, disk.sectors, fat.dirty);
      assert S() == s.(disk := disk.sectors, dirty := fat.dirty);
    }

    /** fat_find_in_dir.  A hit is a valid entry of that name; on a reliable disk there
        is a hit exactly when the directory holds one, and it is the first. */
    method Find(d: u16, name: seq<byte>) returns (loc: Location)
      requires Valid() && IsOpenDir(d) && IsCString(name)
      modifies disk`clock
      ensures !loc.Nowhere? ==> 32 * loc.i + 32 <= |loc.buf| && Matches(Named(ToFat(name)), Entry(loc))
      ensures old(disk.Reliable()) ==> disk.Reliable() && FindsFirst(Dir(d), ToFat(name), loc)
    {
      hide FileBytes, FirstMatch, Slots, ToFat, IsValidEntry, Owned, FatCopy, Encode;
      var f := StrToFilename(name);
      ghost var j, k;
      loc, j, k := Locate(g, disk, fat, d, Named(f), chains);
    }

    /** The end of create and mkdir: enter the chain of e in directory d, or free the
        chain when the entry cannot be written. */
    method Publish(d: u16, loc: Location, e: Slot, ghost j: nat, ghost k: nat) returns (ok: bool)
      requires Valid() && IsOpenDir(d) && IsAt(disk.sectors, g, chains, d, loc, j, k)
      requires FirstCluster(e) in chains && FirstCluster(e) != d && NoOwner(TreeOf(S(), g), FirstCluster(e))
      requires IsDirectory(e) <==> FirstCluster(e) in dirs
      modifies this, fat, fat.table, disk
      ensures Valid()
      ensures ok ==> chains == old(chains) && dirs == old(dirs) && fat.T() == old(fat.T())
      ensures ok ==> FilesKept(old(S()), S(), g, 0) && OnlyDir(old(disk.sectors), disk.sectors, g, chains, d)
      ensures ok && Writable(loc) ==>
                k < |old(Dir(d))| && TreeOf(S(), g) == old(TreeOf(S(), g))[d := PutSlot(old(Dir(d)), k, e)]
      ensures ok && !Writable(loc) ==> TreeOf(S(), g) == old(TreeOf(S(), g))
      ensures !ok ==>
                S() == Freed(old(S()), g, FirstCluster(e)) && TreeOf(S(), g) == old(TreeOf(S(), g)) - {FirstCluster(e)}
      ensures old(disk.Reliable()) ==> disk.Reliable() && ok && !fat.dirty
    {
      hide Tree, Owned, WellFormed, FatCopy, Encode, Owning, FirstCluster, IsDirectory, DirBytes, Slots, FreeFrom;
      hide PutSlot, NoOwner;
      hide FileBytes, OnlyDir, InArea, BootKept, FileSize;
      ghost var s := S();
      ok := WriteDirEntry(g, disk, d, loc, e, chains, j, k);
      if !ok {
        FreeChain(FirstCluster(e));
        return;
      }
      FilesKeptByArea(s, disk.sectors, g, d);
      if Writable(loc) {
        NotZero(s, g, FirstCluster(e));
        assert DirSlots(disk.sectors, g, chains, d) == PutSlot(TreeOf(s, g)[d], k, e) by { TreeAt(s, g, d); }
        SlotStep(s, g, disk.sectors, d, k, e);
      }
      ghost var s1 := S();
      var synced := SyncTable();
      OnlyDirSynced(s.disk, s1.disk, disk.sectors, g, chains, d);
      FilesKeptBySync(s1, S(), g, 0);
      FilesKeptTrans(s, s1, S(), g, 0);
    }

    // A scan that cannot read the first sector or cluster misses every entry of the name.
    ghost predicate Hidden(d: u16, f: seq<byte>)
      requires Valid() && IsOpenDir(d)
      reads this, fat, fat.table, disk
    {
      d != 0 || forall k :: 16 <= k < |Dir(d)| ==> !Matches(Named(f), Dir(d)[k])
    }

    /** The checks that open create and mkdir: the name must not be there, and some slot
        must be vacant. */
    method FindRoom(d: u16, f: seq<byte>) returns (loc: Location, ghost j: nat, ghost k: nat)
      requires Valid() && IsOpenDir(d) && |f| == 11
      modifies disk`clock
      ensures S() == old(S())
      ensures !loc.Nowhere? ==> IsAt(disk.sectors, g, chains, d, loc, j, k) && k < |Dir(d)| && IsVacant(Dir(d)[k])
      ensures old(disk.Reliable()) ==> disk.Reliable() && (loc.Nowhere? <==> !HasRoom(Dir(d), f))
      ensures old(disk.Reliable()) && !loc.Nowhere? ==> k == FirstMatch(Vacant, Dir(d))
      ensures old(disk.FailsOnce()) && Hidden(d, f) && FirstMatch(Vacant, Dir(d)) < |Dir(d)| ==>
                disk.Reliable() && !loc.Nowhere? && k == FirstMatch(Vacant, Dir(d))
    {
      hide TreeOf, Owned, FatCopy, Encode, DirSlots, FirstMatch, IsAt, IsChain, IsVacant, IsValidEntry;
      TreeAt(S(), g, d);
      RootSize(disk.sectors, g, chains);
      loc, j, k := Locate(g, disk, fat, d, Named(f), chains);
      if !loc.Nowhere? {
        return Nowhere, 0, 0;
      }
      loc, j, k := Locate(g, disk, fat, d, Vacant, chains);
    }

    /** fat_node_create.  The result is the new file's first cluster, or 0 for NULL.  When
        just the first read fails, a name that is there already may be entered again. */
    method Create(d: u16, name: seq<byte>) returns (first: u16)
      requires Valid() && IsOpenDir(d) && IsCString(name)
      modifies this, fat, fat.table, disk
      ensures Valid() && CreateDone(old(S()), S(), g, d, ToFat(name), first, old(disk.Reliable()))
      ensures old(disk.Reliable()) ==> disk.Reliable()
      ensures old(disk.FailsOnce() && Hidden(d, ToFat(name)) && FirstMatch(Vacant, Dir(d)) < |Dir(d)|
                  && FirstFree(fat.T(), Limit(g), 2) < Limit(g)) ==>
                first != 0 && TreeOf(S(), g) == old(Entered(S(), g, d, NewEntry(ToFat(name), ATTR_FILE, first)))
    {
      hide TreeOf, Owned, WellFormed, FatCopy, Encode, DirSlots, FreeFrom, PutSlot, NoOwner, FilesKept, ToFat;
      hide FirstMatch, NewEntry, IsAt;
      hide FirstFree, CreateDone, HasRoom, Freed, CacheAgrees, Laid, Entered, Shaped;
      ghost var s := S();
      var f := StrToFilename(name);
      var loc;
      ghost var j, k;
      loc, j, k := FindRoom(d, f);
      if loc.Nowhere? {
        CreateRefused(s, g, d, f);
        return 0;
      }
      first := AllocChain();
      if first == 0 {
        CreateRefused(s, g, d, f);
        return 0;
      }
      StillAt(s, first, g, d, loc, j, k);
      var ok := Publish(d, loc, NewEntry(f, ATTR_FILE, first), j, k);
      if !ok {
        CreateUndone(s, S(), g, d, f, first);
        return 0;
      }
      CreateFinished(s, S(), g, d, f, first, loc, j, k, old(disk.Reliable()));
    }

    // The entry at `loc` is marked deleted, its chain freed, and the table synced.
    method DropEntry(d: u16, f: seq<byte>, loc: Location, ghost j: nat, ghost k: nat, ghost reliable: bool)
      returns (ok: bool)
      requires Valid() && IsOpenDir(d) && IsAt(disk.sectors, g, chains, d, loc, j, k) && 32 * loc.i + 32 <= |loc.buf|
      requires k < |Dir(d)| && Dir(d)[k] == Entry(loc) && Matches(Named(f), Entry(loc)) && Owning(Entry(loc))
      requires reliable ==> disk.Reliable() && k == FirstMatch(Named(f), Dir(d))
      modifies this, fat, fat.table, disk
      ensures Valid() && UnlinkDone(old(S()), S(), g, d, f, ok, k, reliable)
      ensures reliable ==> disk.Reliable() && ok
    {
      hide TreeOf, Owned, WellFormed, FatCopy, Encode, DirSlots, FreeFrom, PutSlot, NoOwner, FilesKept, FirstMatch;
      hide IsAt;
      hide CacheAgrees, Laid, Removed, Deleted, FreeSet, UnlinkDone, Matches, Owning, Entry;
      ghost var s := S();
      TreeAt(s, g, d);
      var e := Entry(loc);
      ok := Rewrite(g, disk, d, loc, Deleted(e), chains, j, k);
      if !ok {
        UnlinkFailed(s, S(), g, d, f, k);
        return;
      }
      StrikeStep(s, g, disk.sectors, d, k);
      ghost var s1 := S();
      FreeChain(FirstCluster(e));
      ghost var s2 := S();
      var synced := SyncTable();
      UnlinkFinished(s, s1, s2, S(), g, d, f, k, reliable);
    }

    /** fat_node_unlink, and fat_node_rmdir, which is the same call. */
    method Unlink(d: u16, name: seq<byte>) returns (ok: bool, ghost k: nat)
      requires Valid() && IsOpenDir(d) && IsCString(name)
      modifies this, fat, fat.table, disk
      ensures Valid() && UnlinkDone(old(S()), S(), g, d, ToFat(name), ok, k, old(disk.Reliable()))
      ensures old(disk.Reliable()) ==> disk.Reliable()
    {
      hide TreeOf, Owned, IsChain, FatCopy, Encode, DirSlots, ToFat, FirstMatch, IsAt, Entry, CacheAgrees, UnlinkDone;
      ghost var s := S();
      var f := StrToFilename(name);
      TreeAt(s, g, d);
      var loc;
      ghost var j;
      loc, j, k := Locate(g, disk, fat, d, Named(f), chains);
      if loc.Nowhere? {
        UnlinkRefused(s, g, d, f, k);
        return false, k;
      }
      NeverDotOrNul(name);
      ok := DropEntry(d, f, loc, j, k, old(disk.Reliable()));
    }

    /** fat_node_mkdir.  The result is the new directory's cluster, or 0 for NULL; without
        memory for the node it is NULL though the directory has been made. */
    method Mkdir(d: u16, name: seq<byte>, memory: bool) returns (node: u16, ghost first: u16)
      requires Valid() && IsOpenDir(d) && IsCString(name)
      modifies this, fat, fat.table, disk
      ensures Valid() && MkdirDone(old(S()), S(), g, d, ToFat(name), first, old(disk.Reliable()))
      ensures old(disk.Reliable()) ==> disk.Reliable()
      ensures node == if memory then first else 0
    {
      var c := MakeDirectory(d, name);
      node, first := if memory then c else 0, c;
    }

    // fat_node_mkdir up to the node.
    method MakeDirectory(d: u16, name: seq<byte>) returns (first: u16)
      requires Valid() && IsOpenDir(d) && IsCString(name)
      modifies this, fat, fat.table, disk
      ensures Valid() && MkdirDone(old(S()), S(), g, d, ToFat(name), first, old(disk.Reliable()))
      ensures old(disk.Reliable()) ==> disk.Reliable()
    {
      hide TreeOf, Owned, WellFormed, FatCopy, Encode, NoOwner, FilesKept, ToFat, FirstMatch, IsAt;
      hide FirstFree, MkdirDone, HasRoom, Freed, CacheAgrees, Laid, Entered;
      ghost var s := S();
      var f := StrToFilename(name);
      var loc;
      ghost var j, k;
      loc, j, k := FindRoom(d, f);
      if loc.Nowhere? {
        MkdirRefused(s, g, d, f);
        return 0;
      }
      first := AllocChain();
      if first == 0 {
        MkdirRefused(s, g, d, f);
        return 0;
      }
      StillAt(s, first, g, d, loc, j, k);
      first := FillDirectory(d, f, first, loc, j, k, s, old(disk.Reliable()));
    }

    // The rest of mkdir, on the newly allocated cluster `first` (s is the state before).
    method FillDirectory(d: u16, f: seq<byte>, c: u16, loc: Location, ghost j: nat, ghost k: nat, ghost s: State,
                         ghost reliable: bool)
      returns (first: u16)
      requires Valid() && IsOpenDir(d) && |f| == 11
      requires Consistent(s, g) && c == FirstFree(s.t, Limit(g), 2) < Limit(g) && c !in s.chains && c != d
      requires S() == Allocated(s, c) && TreeOf(S(), g) == TreeOf(s, g)
      requires IsAt(s.disk, g, s.chains, d, loc, j, k) && IsAt(s.disk, g, chains, d, loc, j, k) && k < |TreeOf(s, g)[d]|
      requires IsVacant(TreeOf(s, g)[d][k])
      requires reliable ==> disk.Reliable() && CanCreate(s, g, d, f) && k == FirstMatch(Vacant, TreeOf(s, g)[d])
      modifies this, fat, fat.table, disk
      ensures Valid() && MkdirDone(s, S(), g, d, f, first, reliable)
      ensures reliable ==> disk.Reliable()
    {
      hide TreeOf, Owned, WellFormed, FatCopy, Encode, NoOwner, FilesKept, FirstMatch, IsAt, DirImage, ClusterBytes;
      hide MkdirDone, HasRoom, Freed, CacheAgrees, Laid, Entered, CanCreate, Tree;
      ghost var s0 := S();
      ghost var done;
      var ok;
      ok, done := WriteCluster(g, disk, c, DirImage(c, d));
      if !ok {
        MkdirPartly(s, disk.sectors, g, c);
        MkdirKeeps(s, S(), g, c);
        ghost var s1 := S();
        FreeChain(c);
        NotInTree(s, g, c, DirImageSlots(g, c, d));
        MkdirUndone(s, s1, S(), g, d, f, c);
        return 0;
      }
      MkdirWritten(s, disk.sectors, g, c, d);
      AtAfterWrite(s0, disk.sectors, g, c, d, loc, j, k);
      dirs := dirs + {c};
      ghost var s1 := S();
      MkdirKeeps(s, s1, g, c);
      ok := Publish(d, loc, NewEntry(f, ATTR_DIRECTORY, c), j, k);
      if !ok {
        NotInTree(s, g, c, DirImageSlots(g, c, d));
        MkdirUndone(s, s1, S(), g, d, f, c);
        return 0;
      }
      MkdirFinished(s, s1, S(), g, d, f, c, loc, j, k, reliable);
      return c;
    }

    // The node's chain can be read and written.
    ghost predicate Open(node: FileNode)
      reads this, fat, fat.table, disk, node
    {
      OpenAt(S(), node.first, node.size)
    }

    /** The node stands for a file of the volume: its chain is one of the chains and no
        directory, and entries under its name in its directory are its own. */
    ghost predicate Live(node: FileNode)
      requires Valid()
      reads this, fat, fat.table, disk, node
    {
      IsCString(node.name) && LiveAt(S(), g, node.dir, ToFat(node.name), node.first, node.size)
    }

    /** fat_node_create with the node it returns, null for failure or without memory for it.
        On a reliable disk the node stands for the new, empty file. */
    method CreateNode(d: u16, name: seq<byte>, memory: bool) returns (node: FileNode?, ghost first: u16)
      requires Valid() && IsOpenDir(d) && IsCString(name)
      modifies this, fat, fat.table, disk
      ensures Valid() && CreateDone(old(S()), S(), g, d, ToFat(name), first, old(disk.Reliable()))
      ensures old(disk.Reliable()) ==> disk.Reliable()
      ensures node != null <==> first != 0 && memory
      ensures node != null ==> && fresh(node) && node.name == name && node.dir == d && node.size == 0
                               && node.first == first && Open(node)
      ensures node != null && old(disk.Reliable()) ==> Live(node)
    {
      hide TreeOf, Owned, WellFormed, FatCopy, Encode, CacheAgrees, CreateDone, ToFat, Laid, LiveAt, FirstFree;
      ghost var s := S();
      var c := Create(d, name);
      first := c;
      if c == 0 || !memory {
        return null, c;
      }
      if old(disk.Reliable()) {
        CreateGivesLive(s, S(), g, d, ToFat(name), c);
      }
      CreateOpens(s, S(), g, d, ToFat(name), c, old(disk.Reliable()));
      node := new FileNode(name, d, 0, c);
    }

    /** fat_node_finddir.  A file's node gets the printed name of its entry, so it stands for
        the file if and only if the name it was found under has no space inside a field, or
        no other entry goes by the printed name. */
    method FindNode(d: u16, name: seq<byte>, memory: bool) returns (child: Child, ghost k: nat)
      requires Valid() && IsOpenDir(d) && IsCString(name)
      modifies disk`clock
      ensures S() == old(S()) && (old(disk.Reliable()) ==> disk.Reliable())
      ensures !child.Missing? ==> k < |Dir(d)| && Matches(Named(ToFat(name)), Dir(d)[k])
      ensures child.Subdir? ==>
                IsDirectory(Dir(d)[k]) && child.first == FirstCluster(Dir(d)[k]) && IsOpenDir(child.first)
      ensures child.Found? ==> && !IsDirectory(Dir(d)[k]) && fresh(child.node) && Open(child.node)
                               && Names(child.node, d, ToFat(name), Dir(d)[k])
      ensures child.Found? && UniqueNames(Dir(d)) ==> (Live(child.node) <==> Reopens(Dir(d), name, child.node.first))
      ensures old(disk.Reliable()) ==>
                (child.Missing? <==> !memory || FirstMatch(Named(ToFat(name)), Dir(d)) == |Dir(d)|)
                && (!child.Missing? ==> k == FirstMatch(Named(ToFat(name)), Dir(d)))
    {
      hide TreeOf, Owned, IsChain, FatCopy, Encode, DirSlots, ToFat, FirstMatch, IsAt, CacheAgrees, Matches;
      hide UniqueNames, Reopens;
      hide FirstCluster, FileSize, IsDirectory, LiveAt, ToStr;
      ghost var s := S();
      var f := StrToFilename(name);
      TreeAt(s, g, d);
      var loc;
      ghost var j;
      loc, j, k := Locate(g, disk, fat, d, Named(f), chains);
      if loc.Nowhere? || !memory {
        return Missing, k;
      }
      var e := Entry(loc);
      NeverDotOrNul(name);
      FoundEntry(s, g, d, name, k);
      MatchName(e, f);
      if IsDirectory(e) {
        return Subdir(FirstCluster(e)), k;
      }
      var printed := FilenameToStr(e[..11]);
      var node := new FileNode(printed, d, FileSize(e), FirstCluster(e));
      child := Found(node);
    }

    // fat_node_write's first step: a file without a first cluster gets one.
    method EnsureFirst(node: FileNode)
      requires Valid() && Open(node)
      modifies this, fat, fat.table, node`first
      ensures Valid() && TreeOf(S(), g) == old(TreeOf(S(), g))
      ensures node.first == 0 ==> S() == old(S()) && old(node.first) == 0 && FirstFree(fat.T(), Limit(g), 2) == Limit(g)
      ensures node.first != 0 ==> && 2 <= node.first < Limit(g) && node.first in chains && node.first !in dirs
                                  && S() == WithFirst(old(S()), old(node.first), node.first)
      ensures old(node.first) != 0 ==> node.first == old(node.first)
      ensures old(node.first) == 0 && node.first != 0 ==>
                node.first == FirstFree(old(fat.T()), Limit(g), 2) && node.first !in old(chains)
    {
      hide TreeOf, Owned, WellFormed, FatCopy, Encode, NoOwner, CacheAgrees, FirstFree, Laid;
      if node.first == 0 {
        node.first := AllocChain();
      }
      if node.first != 0 {
        ChainOf(S(), g, node.first);
      }
    }

    // The chain part of fat_node_write: first cluster, extension, data.
    method WriteBody(node: FileNode, offset: nat, data: seq<byte>) returns (written: int)
      requires Valid() && Open(node) && offset < TWO_32
      modifies this, fat, fat.table, disk, node`first
      ensures Valid() && TreeOf(S(), g) == old(TreeOf(S(), g))
      ensures written < 0 ==>
                S() == old(S()) && old(node.first) == 0 == node.first && FirstFree(fat.T(), Limit(g), 2) == Limit(g)
      ensures written >= 0 ==>
                WriteDone(old(S()), S(), g, old(node.first), node.first, offset, data, written, old(disk.Reliable()))
      ensures written >= 0 ==> node.first in chains && node.first !in dirs
      ensures old(disk.Reliable()) ==> disk.Reliable()
    {
      hide TreeOf, Owned, WellFormed, FatCopy, Encode, CacheAgrees, Extended, FirstFree, FileBytes, Span, WriteDone;
      hide Stored;
      hide Laid;
      ghost var s := S();
      EnsureFirst(node);
      if node.first == 0 {
        return -1;
      }
      ghost var s0 := S();
      ChainOf(s0, g, node.first);
      var needed := NeededClusters(g, offset, |data|);
      ghost var chain := fat.ExtendChain(node.first, needed, chains[node.first]);
      GrowStep(s0, g, node.first, needed);
      chains := chains[node.first := chain];
      ghost var s1 := S();
      assert s1 == Grown(s0, g, node.first, needed);
      ChainOf(s1, g, node.first);
      written := WriteChain(g, disk, fat, node.first, offset, data, chain);
      ChainIsArea(s1.disk, disk.sectors, g, s1.chains, node.first);
      DataStep(s1, g, disk.sectors, node.first);
      WriteData(s, s0, s1, S(), g, old(node.first), node.first, offset, data, written, old(disk.Reliable()));
    }

    // fat_node_write's directory update: new size and first cluster into the entry that goes
    // by the node's name.
    method UpdateEntry(node: FileNode)
      requires Valid() && IsOpenDir(node.dir) && IsCString(node.name) && node.size < TWO_32
      requires node.first in chains && node.first !in dirs
      modifies disk
      ensures Intact() && OnlyArea(old(disk.sectors), disk.sectors, g, chains, node.dir)
      ensures EntryUpdated(old(S()), S(), g, node.dir, ToFat(node.name), node.first, node.size, 1, old(disk.Reliable()))
      ensures Valid()
              <==> Singly(old(TreeOf(S(), g)), TreeOf(S(), g), node.dir, ToFat(node.name), node.first, node.size)
      ensures old(disk.Reliable()) ==> disk.Reliable()
    {
      hide TreeOf, Owned, IsChain, FatCopy, Encode, DirSlots, ToFat, FirstMatch, IsAt, Entry, CacheAgrees, WithSize;
      hide FirstCluster;
      hide IsDirectory, MayTake, Singly;
      ghost var s := S();
      var f := StrToFilename(node.name);
      TreeAt(s, g, node.dir);
      var loc;
      ghost var j, k;
      loc, j, k := Locate(g, disk, fat, node.dir, Named(f), chains);
      if loc.Nowhere? {
        SinglySame(TreeOf(s, g), node.dir, f, node.first, node.size);
        return;
      }
      NeverDotOrNul(node.name);
      var ignored := Rewrite(g, disk, node.dir, loc, WithSize(Entry(loc), node.first, node.size), chains, j, k);
      ResizeStep(s, S(), g, TreeOf(s, g), node.dir, k, DirSlots(disk.sectors, g, chains, node.dir), node.first,
                 node.size);
      SinglySame(TreeOf(s, g), node.dir, f, node.first, node.size);
      SinglyAt(TreeOf(s, g), node.dir, f, k, node.first, node.size);
    }

    /** fat_node_write.  Table, chains and cache stay in order whatever the node is called;
        the volume's invariant is kept if and only if the entry that was updated is no
        directory's and no other entry owns the file's chain, as it is for a live node.  The
        node can be read afterwards; a live one stays live if it had a cluster, and otherwise
        if bytes were written on a reliable disk under a name that is unique. */
    method Write(node: FileNode, offset: nat, data: seq<byte>) returns (written: int)
      requires Valid() && Open(node) && IsOpenDir(node.dir) && IsCString(node.name) && offset < TWO_32
      modifies this, fat, fat.table, disk, node
      ensures Intact() && Open(node) && (old(disk.Reliable()) ==> disk.Reliable())
      ensures FileWritten(old(S()), S(), g, node.dir, ToFat(node.name), old(node.first), old(node.size), node.first,
                          node.size, offset, data, written, old(disk.Reliable()))
      ensures Valid()
              <==> Singly(old(TreeOf(S(), g)), TreeOf(S(), g), node.dir, ToFat(node.name), node.first, node.size)
      ensures old(Live(node)) ==> Valid()
      ensures old(Live(node)) && (old(node.first) != 0 || written < 0) ==> Live(node)
      ensures old(Live(node) && disk.Reliable() && UniqueNames(Dir(node.dir))) && written > 0 ==> Live(node)
    {
      hide TreeOf, Owned, WellFormed, FatCopy, Encode, CacheAgrees, ToFat, Laid, FileWritten, OpenAt, EntryFits;
      hide UniqueNames, Singly;
      ghost var s := S();
      written := WriteFile(node, offset, data);
      WrittenOpen(s, S(), g, node.dir, ToFat(node.name), old(node.first), old(node.size), node.first, node.size,
                  offset, data, written, old(disk.Reliable()));
      if old(Live(node)) {
        NeverDotOrNul(node.name);
        LiveSingly(s, S(), g, node.dir, ToFat(node.name), old(node.first), old(node.size), node.first, node.size,
                   offset, data, written, old(disk.Reliable()));
        WrittenLive(s, S(), g, node.dir, ToFat(node.name), old(node.first), old(node.size), node.first, node.size,
                    offset, data, written, old(disk.Reliable()));
      }
    }

    // The steps of fat_node_write.
    method WriteFile(node: FileNode, offset: nat, data: seq<byte>) returns (written: int)
      requires Valid() && Open(node) && IsOpenDir(node.dir) && IsCString(node.name) && offset < TWO_32
      modifies this, fat, fat.table, disk, node
      ensures Intact() && node.size < TWO_32 && (old(disk.Reliable()) ==> disk.Reliable())
      ensures FileWritten(old(S()), S(), g, node.dir, ToFat(node.name), old(node.first), old(node.size), node.first,
                          node.size, offset, data, written, old(disk.Reliable()))
      ensures Valid()
              <==> Singly(old(TreeOf(S(), g)), TreeOf(S(), g), node.dir, ToFat(node.name), node.first, node.size)
    {
      hide TreeOf, Owned, WellFormed, FatCopy, Encode, CacheAgrees, FirstFree, WriteDone, ToFat, Laid, EntryUpdated;
      hide Singly;
      ghost var s := S();
      written := WriteBody(node, offset, data);
      if written < 0 {
        SinglySame(TreeOf(s, g), node.dir, ToFat(node.name), node.first, node.size);
        return;
      }
      WriteBound(s, S(), g, old(node.first), node.first, offset, data, written, old(disk.Reliable()));
      if offset + written > node.size {
        node.size := offset + written;
      }
      FinishWrite(node, offset, data, written, s, old(node.first), old(node.size), old(disk.Reliable()));
    }

    // The rest of fat_node_write, behind the data loop: the directory entry, and fat_sync.
    method FinishWrite(node: FileNode, ghost offset: nat, ghost data: seq<byte>, written: nat, ghost s: State,
                       ghost first: u16, ghost size: nat, ghost reliable: bool)
      requires Valid() && IsOpenDir(node.dir) && IsCString(node.name)
               && node.size == NewSize(size, offset, written) < TWO_32
      requires DataWritten(s, S(), g, first, node.first, offset, data, written, reliable)
               && (reliable ==> disk.Reliable())
      modifies fat, disk
      ensures Intact() && (reliable ==> disk.Reliable())
      ensures FileWritten(s, S(), g, node.dir, ToFat(node.name), first, size, node.first, node.size, offset, data,
                          written, reliable)
      ensures Valid() <==> Singly(TreeOf(s, g), TreeOf(S(), g), node.dir, ToFat(node.name), node.first, node.size)
    {
      hide TreeOf, Owned, WellFormed, FatCopy, Encode, CacheAgrees, WriteDone, ToFat, Laid, PutSlot, WithSize;
      hide FirstMatch, OnlyArea, OnlyFats, SlotResized, Singly;
      ghost var s2 := S();
      if written > 0 {
        UpdateEntry(node);
        WriteEntry(s, s2, S(), g, node.dir, first, node.first, offset, data, written, reliable);
      } else {
        SinglySame(TreeOf(s, g), node.dir, ToFat(node.name), node.first, node.size);
      }
      ghost var s3 := S();
      var synced := SyncTable();
      WriteEntry(s, s3, S(), g, node.dir, first, node.first, offset, data, written, reliable);
    }

    /** fat_node_read. */
    method Read(node: FileNode, offset: nat, size: nat) returns (data: seq<byte>)
      requires Intact() && Open(node) && offset < TWO_32 && size < TWO_32
      modifies disk`clock
      ensures S() == old(S()) && (old(disk.Reliable()) ==> disk.Reliable())
      ensures |data| <= size && (offset >= node.size ==> data == [])
      ensures offset < node.size ==> node.first in chains
      ensures data != [] ==> && offset < node.size
                             && offset + |data| <= |FileBytes(disk.sectors, g, chains[node.first])|
                             && data == FileBytes(disk.sectors, g, chains[node.first])[offset..offset + |data|]
      ensures old(disk.Reliable()) && offset < node.size ==>
                |data| == Moved(ReadLength(node.size, offset, size), offset,
                                Span(|chains[node.first]|, g.ClusterSize()))
    {
      hide TreeOf, Owned, FatCopy, Encode, CacheAgrees, FileBytes, Span, IsChain;
      if offset >= node.size {
        return [];
      }
      var length := size;
      if (offset + size) % TWO_32 > node.size {
        length := node.size - offset;
      }
      ChainIs(S(), g, node.first);
      data := ReadChain(g, disk, fat, node.first, offset, length, chains[node.first]);
    }
  }

  // The location is the first entry of that name, or nowhere if there is none.
  ghost predicate FindsFirst(v: seq<Slot>, f: seq<byte>, loc: Location)
    requires loc.Nowhere? || 32 * loc.i + 32 <= |loc.buf|
  {
    var k := FirstMatch(Named(f), v);
    if k == |v| then loc.Nowhere? else !loc.Nowhere? && Entry(loc) == v[k]
  }

  // What fat_node_finddir returns: NULL, a directory's node or a file's.
  datatype Child = Missing | Subdir(first: u16) | Found(node: FileNode)

  // The node is made from the entry e, found under the name f in directory d.
  ghost predicate Names(node: FileNode, d: u16, f: seq<byte>, e: Slot)
    requires |f| == 11
    reads node
  {
    node.dir == d && node.name == ToStr(f) && IsCString(node.name) && node.first == FirstCluster(e)
    && node.size == FileSize(e)
  }
}
