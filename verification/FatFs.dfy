/**
 The mounted volume as a whole: which disk areas the root directory and the chains
 occupy, the directories as slot sequences, which entries own which chains, and the
 FAT copies on disk.
 */
module FatFs {
  import opened FatTable
  import opened FatGeometry
  import opened FatData
  import opened FatIo
  import opened FatNames
  import opened FatDir

  // The chains lie in the volume and share no cluster.
  ghost predicate Laid(g: Geometry, m: map<u16, seq<u16>>) {
    && (forall c :: c in m ==> c >= 2 && |m[c]| > 0 && AllClusters(g, m[c]) && Distinct(m[c]))
    && (forall c, d :: c in m && d in m && c != d ==> Apart(m[c], m[d]))
  }

  lemma WellFormedIsLaid(g: Geometry, t: seq<u16>, m: map<u16, seq<u16>>)
    requires g.totalClusters + 2 <= |t| && WellFormed(t, g.totalClusters + 2, m)
    ensures Laid(g, m)
  {
  }

  // Sector l belongs to the root directory (c == 0) or to the chain of c.
  ghost predicate InArea(g: Geometry, m: map<u16, seq<u16>>, c: u16, l: int) {
    if c == 0 then g.rootStart <= l < g.dataStart
    else c in m && exists i :: 0 <= i < |m[c]| && InCluster(g, m[c][i], l)
  }

  // b differs from a at most in the area of c.
  ghost predicate OnlyArea(a: seq<Sector>, b: seq<Sector>, g: Geometry, m: map<u16, seq<u16>>, c: u16) {
    && |a| == |b|
    && forall l :: 0 <= l < |a| && !InArea(g, m, c, l) ==> b[l] == a[l]
  }

  lemma AreasApart(g: Geometry, m: map<u16, seq<u16>>, c: u16, d: u16, i: nat, l: nat)
    requires g.Valid() && Laid(g, m) && d in m && c != d && (c == 0 || c in m)
    requires i < |m[d]| && InCluster(g, m[d][i], l)
    ensures !InArea(g, m, c, l)
  {
    hide Span;
    ClusterRange(g, m[d][i]);
    if c != 0 {
      forall j | 0 <= j < |m[c]|
        ensures !InCluster(g, m[c][j], l)
      {
        assert Apart(m[c], m[d]);
        if InCluster(g, m[c][j], l) {
          ClustersDisjoint(g, m[c][j], l - g.Lba(m[c][j]), m[d][i], l - g.Lba(m[d][i]));
        }
      }
    }
  }

  /** A change in one area is invisible in every other chain's bytes. */
  lemma OtherChain(a: seq<Sector>, b: seq<Sector>, g: Geometry, m: map<u16, seq<u16>>, c: u16, d: u16)
    requires OnDisk(a, g) && Laid(g, m) && d in m && c != d && (c == 0 || c in m)
    requires OnlyArea(a, b, g, m, c)
    ensures FileBytes(a, g, m[d]) == FileBytes(b, g, m[d])
  {
    hide FileBytes, Span;
    forall i | 0 <= i < |m[d]|
      ensures SameCluster(a, b, g, m[d][i])
    {
      forall l | 0 <= l < |a| && InCluster(g, m[d][i], l)
        ensures !InArea(g, m, c, l)
      {
        AreasApart(g, m, c, d, i, l);
      }
    }
    FileFrame(a, b, g, m[d]);
  }

  // Chains lie behind the FAT copies and the root directory.
  lemma ChainBehind(g: Geometry, m: map<u16, seq<u16>>, c: u16, l: nat)
    requires g.Valid() && Laid(g, m) && c in m && l < g.dataStart
    ensures !InArea(g, m, c, l)
  {
    hide Span;
    forall i | 0 <= i < |m[c]|
      ensures !InCluster(g, m[c][i], l)
    {
      ClusterRange(g, m[c][i]);
    }
  }

  lemma OtherRoot(a: seq<Sector>, b: seq<Sector>, g: Geometry, m: map<u16, seq<u16>>, c: u16)
    requires OnDisk(a, g) && Laid(g, m) && c in m
    requires OnlyArea(a, b, g, m, c)
    ensures RootBytes(a, g) == RootBytes(b, g)
  {
    hide SectorRun, Span;
    forall l | g.rootStart <= l < g.rootStart + g.RootSectors()
      ensures a[l] == b[l]
    {
      ChainBehind(g, m, c, l);
    }
    SectorRunFrame(a, b, g.rootStart, g.RootSectors());
  }

  // ---------------------------------------------------------------- directories

  ghost predicate IsDir(m: map<u16, seq<u16>>, d: u16) {
    d == 0 || d in m
  }

  // A directory's contents: the root directory's sectors, or a chain's bytes.
  ghost function DirBytes(disk: seq<Sector>, g: Geometry, m: map<u16, seq<u16>>, d: u16): (r: seq<byte>)
    requires OnDisk(disk, g) && Laid(g, m) && IsDir(m, d)
  {
    if d == 0 then RootBytes(disk, g) else FileBytes(disk, g, m[d])
  }

  ghost function DirSlots(disk: seq<Sector>, g: Geometry, m: map<u16, seq<u16>>, d: u16): (r: seq<Slot>)
    requires OnDisk(disk, g) && Laid(g, m) && IsDir(m, d)
  {
    Slots(DirBytes(disk, g, m, d))
  }

  lemma OtherDir(a: seq<Sector>, b: seq<Sector>, g: Geometry, m: map<u16, seq<u16>>, c: u16, d: u16)
    requires OnDisk(a, g) && Laid(g, m) && IsDir(m, c) && IsDir(m, d) && c != d
    requires OnlyArea(a, b, g, m, c)
    ensures DirBytes(a, g, m, d) == DirBytes(b, g, m, d)
  {
    hide FileBytes, RootBytes;
    if d == 0 {
      OtherRoot(a, b, g, m, c);
    } else {
      OtherChain(a, b, g, m, c, d);
    }
  }

  // All directories: the root and the subdirectories in `dirs`.
  ghost function Tree(disk: seq<Sector>, g: Geometry, m: map<u16, seq<u16>>, dirs: set<u16>): (r: map<u16, seq<Slot>>)
    requires OnDisk(disk, g) && Laid(g, m) && dirs <= m.Keys
    ensures r.Keys == dirs + {0}
  {
    map d | d in dirs + {0} :: DirSlots(disk, g, m, d)
  }

  /** Changing one slot of one directory changes the tree at that slot only. */
  lemma TreeUpdate(a: seq<Sector>, b: seq<Sector>, g: Geometry, m: map<u16, seq<u16>>, dirs: set<u16>, d: u16,
                   v: seq<Slot>)
    requires OnDisk(a, g) && Laid(g, m) && dirs <= m.Keys && d in dirs + {0}
    requires OnlyArea(a, b, g, m, d) && DirSlots(b, g, m, d) == v
    ensures Tree(b, g, m, dirs) == Tree(a, g, m, dirs)[d := v]
  {
    hide DirBytes, Slots;
    forall c | c in dirs + {0} && c != d
      ensures DirSlots(a, g, m, c) == DirSlots(b, g, m, c)
    {
      OtherDir(a, b, g, m, d, c);
    }
  }

  /** Writing a file's chain leaves every directory alone. */
  lemma TreeFrame(a: seq<Sector>, b: seq<Sector>, g: Geometry, m: map<u16, seq<u16>>, dirs: set<u16>, c: u16)
    requires OnDisk(a, g) && Laid(g, m) && dirs <= m.Keys && c in m && c !in dirs
    requires OnlyArea(a, b, g, m, c)
    ensures Tree(b, g, m, dirs) == Tree(a, g, m, dirs)
  {
    hide DirBytes, Slots;
    forall d | d in dirs + {0}
      ensures DirSlots(a, g, m, d) == DirSlots(b, g, m, d)
    {
      OtherDir(a, b, g, m, c, d);
    }
  }

  /** The tree depends on the directories' own chains only. */
  lemma TreeChains(disk: seq<Sector>, g: Geometry, m: map<u16, seq<u16>>, m': map<u16, seq<u16>>, dirs: set<u16>)
    requires OnDisk(disk, g) && Laid(g, m) && Laid(g, m') && dirs <= m.Keys && dirs <= m'.Keys
    requires forall d :: d in dirs ==> m[d] == m'[d]
    ensures Tree(disk, g, m, dirs) == Tree(disk, g, m', dirs)
  {
  }

  // ---------------------------------------------------------------- ownership

  // An entry that stands for a file or subdirectory of its own (`.` and `..` do not).
  predicate Owning(e: Slot) {
    IsValidEntry(e) && e[0] != DOT
  }

  // Entry k of directory d owns a chain.
  ghost predicate Owns(v: map<u16, seq<Slot>>, d: u16, k: nat) {
    d in v && k < |v[d]| && Owning(v[d][k]) && FirstCluster(v[d][k]) != 0
  }

  // An entry without a cluster is empty.
  predicate Sized(e: Slot) {
    Owning(e) && FirstCluster(e) == 0 ==> FileSize(e) == 0
  }

  /** Every owning entry names a chain of the table, no chain has two owners, an entry's
      chain is a subdirectory if and only if the entry says so, and entries without a chain
      are empty. */
  ghost predicate Owned(v: map<u16, seq<Slot>>, chains: set<u16>, dirs: set<u16>) {
    && (forall d, k: nat :: Owns(v, d, k) ==>
          FirstCluster(v[d][k]) in chains && (IsDirectory(v[d][k]) <==> FirstCluster(v[d][k]) in dirs))
    && (forall c, j: nat, d, k: nat ::
          Owns(v, c, j) && Owns(v, d, k) && FirstCluster(v[c][j]) == FirstCluster(v[d][k]) ==> c == d && j == k)
    && (forall d, k :: d in v && 0 <= k < |v[d]| ==> Sized(v[d][k]))
  }

  ghost predicate NoOwner(v: map<u16, seq<Slot>>, c: u16) {
    forall d, k: nat :: Owns(v, d, k) ==> FirstCluster(v[d][k]) != c
  }

  /** An entry that owns an unowned chain, or none, may replace any slot. */
  lemma OwnedPut(v: map<u16, seq<Slot>>, chains: set<u16>, dirs: set<u16>, d: u16, k: nat, e: Slot)
    requires Owned(v, chains, dirs) && d in v && k < |v[d]| && Sized(e)
    requires Owning(e) && FirstCluster(e) != 0 ==>
               && FirstCluster(e) in chains && (IsDirectory(e) <==> FirstCluster(e) in dirs)
               && (NoOwner(v, FirstCluster(e)) || (Owns(v, d, k) && FirstCluster(v[d][k]) == FirstCluster(e)))
    ensures Owned(v[d := PutSlot(v[d], k, e)], chains, dirs)
  {
    hide IsValidEntry, IsVacant, Sized, FileSize;
    var w := v[d := PutSlot(v[d], k, e)];
    forall c, j: nat | Owns(w, c, j) && (c != d || j != k)
      ensures Owns(v, c, j) && w[c][j] == v[c][j]
    {
    }
  }

  /** A new chain, without an owner yet, disturbs nothing. */
  lemma OwnedGrow(v: map<u16, seq<Slot>>, chains: set<u16>, dirs: set<u16>, c: u16)
    requires Owned(v, chains, dirs) && c !in chains && c != 0 && dirs <= chains
    ensures Owned(v, chains + {c}, dirs) && NoOwner(v, c)
  {
  }

  /** A chain without an owner may go. */
  lemma OwnedShrink(v: map<u16, seq<Slot>>, chains: set<u16>, dirs: set<u16>, c: u16)
    requires Owned(v, chains, dirs) && NoOwner(v, c)
    ensures Owned(v - {c}, chains - {c}, dirs - {c})
  {
    var w := v - {c};
    forall d, k: nat | Owns(w, d, k)
      ensures Owns(v, d, k) && w[d][k] == v[d][k]
    {
    }
  }

  // ---------------------------------------------------------------- FAT copies on disk

  // The table's memory as bytes, little-endian.
  function Encode(t: seq<u16>): (r: seq<byte>)
    ensures |r| == 2 * |t|
  {
    seq(2 * |t|, i requires 0 <= i < 2 * |t| => if i % 2 == 0 then t[i / 2] % 256 else t[i / 2] / 256)
  }

  function Decode(b: seq<byte>): (r: seq<u16>)
    ensures |r| == |b| / 2
  {
    seq(|b| / 2, i requires 0 <= i < |b| / 2 => b[2 * i] as int + 256 * b[2 * i + 1] as int)
  }

  lemma DecodeEncode(t: seq<u16>)
    ensures Decode(Encode(t)) == t
  {
    forall i | 0 <= i < |t|
      ensures Decode(Encode(t))[i] == t[i]
    {
      EncodeAt(t, i);
    }
  }

  lemma EncodeAt(t: seq<u16>, i: nat)
    requires i < |t|
    ensures Encode(t)[2 * i] == t[i] % 256 && Encode(t)[2 * i + 1] == t[i] / 256
  {
    assert 2 * i / 2 == i && (2 * i + 1) / 2 == i;
  }

  /** Loading a FAT from its bytes and writing it back is the identity. */
  lemma EncodeDecode(b: seq<byte>)
    requires |b| % 2 == 0
    ensures Encode(Decode(b)) == b
  {
    forall i | 0 <= i < |b|
      ensures Encode(Decode(b))[i] == b[i]
    {
      var k := i / 2;
      assert Decode(b)[k] == b[2 * k] as int + 256 * b[2 * k + 1] as int;
    }
  }

  // Copy i of the FAT on disk.
  ghost function FatCopy(disk: seq<Sector>, g: Geometry, i: nat): (r: seq<byte>)
    requires OnDisk(disk, g) && i < g.numFats
  {
    SpanMono(i, g.numFats, g.sectorsPerFat);
    SectorRun(disk, g.fatStart + Span(i, g.sectorsPerFat), g.sectorsPerFat)
  }

  // b differs from a at most in the FAT copies.
  ghost predicate OnlyFats(a: seq<Sector>, b: seq<Sector>, g: Geometry) {
    && |a| == |b|
    && forall l :: 0 <= l < |a| && !(g.fatStart <= l < g.rootStart) ==> b[l] == a[l]
  }

  /** No write to a directory or a file touches a FAT copy. */
  lemma FatsUntouched(a: seq<Sector>, b: seq<Sector>, g: Geometry, m: map<u16, seq<u16>>, c: u16, i: nat)
    requires OnDisk(a, g) && Laid(g, m) && IsDir(m, c) && i < g.numFats
    requires OnlyArea(a, b, g, m, c)
    ensures FatCopy(b, g, i) == FatCopy(a, g, i)
  {
    hide SectorRun, Span;
    SpanMono(i, g.numFats, g.sectorsPerFat);
    var lba := g.fatStart + Span(i, g.sectorsPerFat);
    forall l | lba <= l < lba + g.sectorsPerFat
      ensures a[l] == b[l]
    {
      if c != 0 {
        ChainBehind(g, m, c, l);
      }
    }
    SectorRunFrame(a, b, lba, g.sectorsPerFat);
  }

  // b differs from a at most in the FAT copies and in directory d.
  ghost predicate OnlyDir(a: seq<Sector>, b: seq<Sector>, g: Geometry, m: map<u16, seq<u16>>, d: u16) {
    && |a| == |b|
    && forall l :: 0 <= l < |a| && !(g.fatStart <= l < g.rootStart) && !InArea(g, m, d, l) ==> b[l] == a[l]
  }

  // The bytes of a cluster that is not the directory's.
  lemma OnlyDirSpares(a: seq<Sector>, b: seq<Sector>, g: Geometry, m: map<u16, seq<u16>>, d: u16, c: u16)
    requires OnDisk(a, g) && Laid(g, m) && IsDir(m, d) && g.IsCluster(c) && (d == 0 || c !in m[d])
    requires OnlyDir(a, b, g, m, d)
    ensures ClusterBytes(a, g, c) == ClusterBytes(b, g, c)
  {
    hide SectorRun, Span;
    ClusterRange(g, c);
    forall l | 0 <= l < |a| && InCluster(g, c, l)
      ensures a[l] == b[l]
    {
      if d != 0 {
        forall i | 0 <= i < |m[d]|
          ensures !InCluster(g, m[d][i], l)
        {
          if InCluster(g, m[d][i], l) {
            ClustersDisjoint(g, m[d][i], l - g.Lba(m[d][i]), c, l - g.Lba(c));
          }
        }
      }
    }
    ClusterFrame(a, b, g, c);
  }

  // Writing the FAT copies touches no directory and no file.
  lemma SyncFrame(a: seq<Sector>, b: seq<Sector>, g: Geometry, m: map<u16, seq<u16>>, c: u16)
    requires OnDisk(a, g) && Laid(g, m) && IsDir(m, c) && OnlyFats(a, b, g)
    ensures DirBytes(a, g, m, c) == DirBytes(b, g, m, c)
  {
    hide SectorRun, Span, FileBytes;
    if c == 0 {
      SectorRunFrame(a, b, g.rootStart, g.RootSectors());
    } else {
      forall i | 0 <= i < |m[c]|
        ensures SameCluster(a, b, g, m[c][i])
      {
        ClusterRange(g, m[c][i]);
      }
      FileFrame(a, b, g, m[c]);
    }
  }

  lemma TreeSynced(a: seq<Sector>, b: seq<Sector>, g: Geometry, m: map<u16, seq<u16>>, dirs: set<u16>)
    requires OnDisk(a, g) && Laid(g, m) && dirs <= m.Keys && OnlyFats(a, b, g)
    ensures Tree(b, g, m, dirs) == Tree(a, g, m, dirs)
  {
    hide DirBytes, Slots;
    forall d | d in dirs + {0}
      ensures DirSlots(a, g, m, d) == DirSlots(b, g, m, d)
    {
      SyncFrame(a, b, g, m, d);
    }
  }

  // One pass of fat_sync's outer loop: write copy i.
  method WriteCopy(g: Geometry, disk: Disk, bytes: seq<byte>, i: nat) returns (ok: bool)
    requires OnDisk(disk.sectors, g) && i < g.numFats && |bytes| == 512 * g.sectorsPerFat
    modifies disk
    ensures |disk.sectors| == |old(disk.sectors)|
    ensures var lba := g.fatStart + Span(i, g.sectorsPerFat);
            forall l :: 0 <= l < |disk.sectors| && !(lba <= l < lba + g.sectorsPerFat) ==>
              disk.sectors[l] == old(disk.sectors)[l]
    ensures ok ==> FatCopy(disk.sectors, g, i) == bytes
    ensures old(disk.Reliable()) ==> disk.Reliable() && ok
  {
    hide Span, SectorRun;
    SpanMono(i, g.numFats, g.sectorsPerFat);
    var lba := g.fatStart + Span(i, g.sectorsPerFat);
    var j := 0;
    while j < g.sectorsPerFat
      invariant 0 <= j <= g.sectorsPerFat && |disk.sectors| == |old(disk.sectors)|
      invariant forall l :: 0 <= l < |disk.sectors| && !(lba <= l < lba + j) ==> disk.sectors[l] == old(disk.sectors)[l]
      invariant forall l :: lba <= l < lba + j ==> disk.sectors[l] == BufferSector(bytes, l - lba)
      invariant old(disk.Reliable()) ==> disk.Reliable()
    {
      ok := disk.Write(lba + j, BufferSector(bytes, j));
      if !ok {
        return;
      }
      j := j + 1;
    }
    PrefixBytes(disk.sectors, lba, bytes, j);
    assert bytes[..512 * j] == bytes;
    ok := true;
  }

  lemma CopyFrame(a: seq<Sector>, b: seq<Sector>, g: Geometry, i: nat, j: nat)
    requires OnDisk(a, g) && |a| == |b| && i < j < g.numFats
    requires var lba := g.fatStart + Span(j, g.sectorsPerFat);
             forall l :: 0 <= l < |a| && !(lba <= l < lba + g.sectorsPerFat) ==> b[l] == a[l]
    ensures FatCopy(b, g, i) == FatCopy(a, g, i)
  {
    hide SectorRun, Span;
    SpanMono(i, g.numFats, g.sectorsPerFat);
    SpanMono(i, j, g.sectorsPerFat);
    SectorRunFrame(a, b, g.fatStart + Span(i, g.sectorsPerFat), g.sectorsPerFat);
  }

  /** fat_sync: a clean table is left alone; otherwise success means that every copy on
      disk holds the table, and failure leaves the table dirty. */
  method Sync(g: Geometry, disk: Disk, fat: ClusterTable) returns (ok: bool)
    requires OnDisk(disk.sectors, g) && fat.Valid() && fat.table.Length == 256 * g.sectorsPerFat
    modifies disk, fat
    ensures OnlyFats(old(disk.sectors), disk.sectors, g)
    ensures ok ==> !fat.dirty
    ensures !ok ==> old(fat.dirty) && fat.dirty
    ensures !old(fat.dirty) ==> disk.sectors == old(disk.sectors)
    ensures old(fat.dirty) && ok ==> forall i :: 0 <= i < g.numFats ==> FatCopy(disk.sectors, g, i) == Encode(fat.T())
    ensures old(disk.Reliable()) ==> disk.Reliable() && ok
  {
    hide Span, FatCopy, Encode;
    if !fat.dirty {
      return true;
    }
    var bytes := Encode(fat.table[..]);
    var i := 0;
    while i < g.numFats
      invariant 0 <= i <= g.numFats && fat.dirty
      invariant OnlyFats(old(disk.sectors), disk.sectors, g)
      invariant forall c :: 0 <= c < i ==> FatCopy(disk.sectors, g, c) == bytes
      invariant old(disk.Reliable()) ==> disk.Reliable()
    {
      ghost var before := disk.sectors;
      ok := WriteCopy(g, disk, bytes, i);
      SpanMono(i, g.numFats, g.sectorsPerFat);
      if !ok {
        return;
      }
      forall c | 0 <= c < i
        ensures FatCopy(disk.sectors, g, c) == bytes
      {
        CopyFrame(before, disk.sectors, g, c, i);
      }
      i := i + 1;
    }
    fat.dirty := false;
    ok := true;
  }

  /** The table load of fat_mount: the in-memory table is the first copy on disk. */
  method LoadTable(g: Geometry, disk: Disk) returns (ok: bool, fat: ClusterTable)
    requires OnDisk(disk.sectors, g)
    modifies disk`clock
    ensures fresh(fat) && fresh(fat.table) && fat.Valid()
    ensures fat.n == g.totalClusters + 2 && fat.table.Length == 256 * g.sectorsPerFat && !fat.dirty
    ensures ok ==> Encode(fat.T()) == FatCopy(disk.sectors, g, 0)
    ensures old(disk.Reliable()) ==> disk.Reliable() && ok
  {
    hide Span, Decode;
    SpanMono(0, g.numFats, g.sectorsPerFat);
    var bytes: seq<byte> := seq(512 * g.sectorsPerFat, _ => 0);
    var i := 0;
    ok := true;
    assert Span(0, g.sectorsPerFat) == 0 by { SpanZero(g.sectorsPerFat); }
    while i < g.sectorsPerFat && ok
      invariant 0 <= i <= g.sectorsPerFat && |bytes| == 512 * g.sectorsPerFat
      invariant ok ==> bytes[..512 * i] == SectorRun(disk.sectors, g.fatStart, i)
      invariant old(disk.Reliable()) ==> disk.Reliable() && ok
      decreases g.sectorsPerFat - i, ok
    {
      ghost var before := bytes;
      ok, bytes := disk.Read(g.fatStart + i, bytes, 512 * i);
      if ok {
        assert bytes[..512 * (i + 1)] == before[..512 * i] + disk.sectors[g.fatStart + i];
        i := i + 1;
      }
    }
    assert ok ==> bytes[..512 * i] == bytes;
    var contents := Decode(bytes);
    EncodeDecode(bytes);
    var table := new u16[256 * g.sectorsPerFat](k requires 0 <= k < |contents| => contents[k]);
    assert table[..] == contents;
    fat := new ClusterTable(table, g.totalClusters);
  }

  lemma SpanZero(size: nat)
    ensures Span(0, size) == 0
  {
  }
}
