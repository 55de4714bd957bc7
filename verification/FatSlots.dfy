/**
 Directory slots on disk: finding one by scanning a directory, and the two ways in
 which fs/fat.c writes one back (a patched sector or cluster, and fat_write_dir_entry).
 */
module FatSlots {
  import opened FatTable
  import opened FatGeometry
  import opened FatData
  import opened FatIo
  import opened FatDir
  import opened FatFs

  // Where a scan stopped, with the buffer it had read.
  datatype Location =
    | Nowhere
    | InRoot(sec: nat, i: nat, buf: seq<byte>)
    | InChain(cluster: u16, i: nat, buf: seq<byte>)

  // `loc` is slot k of directory d (in cluster j of its chain).
  ghost predicate IsAt(disk: seq<Sector>, g: Geometry, m: map<u16, seq<u16>>, d: u16, loc: Location, j: nat, k: nat)
    requires OnDisk(disk, g) && Laid(g, m)
  {
    match loc
    case Nowhere => false
    case InRoot(sec, i, buf) =>
      && d == 0 && sec < g.RootSectors() && i < 16 && k == 16 * sec + i
      && |buf| == 512 && buf == disk[g.rootStart + sec]
    case InChain(cluster, i, buf) =>
      && d in m && j < |m[d]| && cluster == m[d][j]
      && 32 * i + 32 <= g.ClusterSize() && 32 * k == Span(j, g.ClusterSize()) + 32 * i
      && |buf| == BUFFER_SIZE && buf[..g.ClusterSize()] == ClusterBytes(disk, g, cluster)
  }

  function Entry(loc: Location): Slot
    requires loc.Nowhere? || 32 * loc.i + 32 <= |loc.buf|
  {
    if loc.Nowhere? then seq(32, _ => 0) else SlotAt(loc.buf, loc.i)
  }

  /** The buffered entry is the directory's slot. */
  lemma EntryIsSlot(disk: seq<Sector>, g: Geometry, m: map<u16, seq<u16>>, d: u16, loc: Location, j: nat, k: nat)
    requires OnDisk(disk, g) && Laid(g, m) && IsDir(m, d) && IsAt(disk, g, m, d, loc, j, k)
    ensures k < |DirSlots(disk, g, m, d)| && DirSlots(disk, g, m, d)[k] == Entry(loc)
    ensures 32 * k + 32 <= |DirBytes(disk, g, m, d)|
  {
    hide SectorRun, FileBytes, ClusterBytes, Span, Slots;
    var b := DirBytes(disk, g, m, d);
    match loc
    case InRoot(sec, i, buf) =>
      SectorRunAt(disk, g.rootStart, sec, g.RootSectors());
      SliceOfSlice(RootBytes(disk, g), 512 * sec, 512 * sec + 512, 32 * i, 32 * i + 32);
      SlotOfBytes(b, k, buf, i);
    case InChain(cluster, i, buf) =>
      FileBytesSplit(disk, g, m[d], j);
      SameSlice(FileBytes(disk, g, m[d]), Span(j, g.ClusterSize()), buf, g.ClusterSize(), 32 * i, 32);
      SlotOfBytes(b, k, buf, i);
  }

  lemma SlotOfBytes(b: seq<byte>, k: nat, buf: seq<byte>, i: nat)
    requires 32 * k + 32 <= |b| && 32 * i + 32 <= |buf| && b[32 * k..32 * k + 32] == buf[32 * i..32 * i + 32]
    ensures k < |Slots(b)| && Slots(b)[k] == SlotAt(buf, i)
  {
  }

  /** Search directory d, as fat_find_in_dir, fat_find_free_entry, fat_node_unlink and
      fat_node_write all do.  On a reliable disk the result is the first match. */
  method Locate(g: Geometry, disk: Disk, fat: ClusterTable, d: u16, q: Query, ghost m: map<u16, seq<u16>>)
    returns (loc: Location, ghost j: nat, ghost k: nat)
    requires OnDisk(disk.sectors, g) && fat.Valid() && fat.n == g.totalClusters + 2
    requires Laid(g, m) && IsDir(m, d) && (d != 0 ==> IsChain(fat.T(), fat.n, m[d]) && m[d][0] == d)
    modifies disk`clock
    ensures !loc.Nowhere? ==> && IsAt(disk.sectors, g, m, d, loc, j, k) && 32 * loc.i + 32 <= |loc.buf|
                              && k < |DirSlots(disk.sectors, g, m, d)|
                              && DirSlots(disk.sectors, g, m, d)[k] == Entry(loc)
                              && Matches(q, Entry(loc))
    ensures old(disk.Reliable()) ==>
              disk.Reliable() &&
              var f := FirstMatch(q, DirSlots(disk.sectors, g, m, d));
              loc.Nowhere? == (f == |DirSlots(disk.sectors, g, m, d)|) && (!loc.Nowhere? ==> k == f)
    ensures old(disk.FailsOnce()) && (d != 0 || g.RootSectors() > 0) ==>
              disk.Reliable() && (loc.Nowhere? || (d == 0 && k >= 16))
  {
    hide FileBytes, ClusterBytes, RootBytes, Slots, FirstMatch, Matches, Span;
    if d == 0 {
      var found, sec, i, buf := ScanRoot(g, disk, q);
      loc, j, k := if found then InRoot(sec, i, buf) else Nowhere, 0, 16 * sec + i;
    } else {
      var found, cluster, i, buf;
      found, cluster, i, buf, j, k := ScanChain(g, disk, fat, d, q, m[d]);
      loc := if found then InChain(cluster, i, buf) else Nowhere;
    }
    if !loc.Nowhere? {
      EntryIsSlot(disk.sectors, g, m, d, loc, j, k);
    }
  }

  lemma RootSize(disk: seq<Sector>, g: Geometry, m: map<u16, seq<u16>>)
    requires OnDisk(disk, g) && Laid(g, m)
    ensures |DirSlots(disk, g, m, 0)| == 16 * g.RootSectors()
  {
  }

  // The disk image a became b by putting e into slot k of directory d.
  ghost predicate SlotPut(a: seq<Sector>, b: seq<Sector>, g: Geometry, m: map<u16, seq<u16>>, d: u16, k: nat, e: Slot)
    requires OnDisk(a, g) && |a| == |b| && Laid(g, m) && IsDir(m, d)
  {
    k < |DirSlots(a, g, m, d)| && DirSlots(b, g, m, d) == PutSlot(DirSlots(a, g, m, d), k, e)
  }

  lemma RootPut(a: seq<Sector>, g: Geometry, m: map<u16, seq<u16>>, sec: nat, i: nat, e: Slot)
    requires OnDisk(a, g) && Laid(g, m) && sec < g.RootSectors() && i < 16
    ensures var b := a[g.rootStart + sec := Splice(a[g.rootStart + sec], 32 * i, e)];
            OnlyArea(a, b, g, m, 0) && SlotPut(a, b, g, m, 0, 16 * sec + i, e)
  {
    hide SectorRun, Slots, Splice;
    SectorRunPatched(a, g.rootStart, g.RootSectors(), sec, 32 * i, e);
    SlotsSplice(RootBytes(a, g), 16 * sec + i, e);
  }

  lemma ClusterIsArea(a: seq<Sector>, b: seq<Sector>, g: Geometry, m: map<u16, seq<u16>>, d: u16, j: nat)
    requires Laid(g, m) && d in m && j < |m[d]| && OnlyCluster(a, b, g, m[d][j])
    ensures OnlyArea(a, b, g, m, d)
  {
  }

  lemma ChainPut(a: seq<Sector>, b: seq<Sector>, g: Geometry, m: map<u16, seq<u16>>, d: u16, j: nat, k: nat, i: nat,
                 e: Slot)
    requires OnDisk(a, g) && Laid(g, m) && d in m && j < |m[d]| && OnlyCluster(a, b, g, m[d][j])
    requires 32 * i + 32 <= g.ClusterSize() && 32 * k == Span(j, g.ClusterSize()) + 32 * i
    requires ClusterBytes(b, g, m[d][j]) == Splice(ClusterBytes(a, g, m[d][j]), 32 * i, e)
    ensures OnlyArea(a, b, g, m, d) && SlotPut(a, b, g, m, d, k, e)
  {
    hide FileBytes, ClusterBytes, Slots, Splice, Span;
    ClusterIsArea(a, b, g, m, d, j);
    WriteStep(a, b, g, m[d], j, 32 * i, e);
    SlotsSplice(FileBytes(a, g, m[d]), k, e);
  }

  // A cluster rewritten with the bytes it had.
  lemma ChainSame(a: seq<Sector>, b: seq<Sector>, g: Geometry, m: map<u16, seq<u16>>, d: u16, j: nat)
    requires OnDisk(a, g) && Laid(g, m) && d in m && j < |m[d]| && OnlyCluster(a, b, g, m[d][j])
    requires ClusterBytes(b, g, m[d][j]) == ClusterBytes(a, g, m[d][j])
    ensures OnlyArea(a, b, g, m, d) && DirSlots(b, g, m, d) == DirSlots(a, g, m, d)
  {
    hide FileBytes, ClusterBytes, Slots, Span, Splice;
    ClusterIsArea(a, b, g, m, d, j);
    FileBytesSplit(a, g, m[d], j);
    FileBytesUpdate(a, b, g, m[d], j);
    SpliceSame(FileBytes(a, g, m[d]), Span(j, g.ClusterSize()), ClusterBytes(a, g, m[d][j]));
  }

  lemma SpliceSame(a: seq<byte>, lo: nat, x: seq<byte>)
    requires lo + |x| <= |a| && x == a[lo..lo + |x|]
    ensures Splice(a, lo, x) == a
  {
  }

  /** Write the patched buffer back: the sector of the root directory, or the whole
      cluster of a subdirectory.  A failed write may have changed the slot or not, and
      nothing else. */
  method Rewrite(g: Geometry, disk: Disk, d: u16, loc: Location, e: Slot, ghost m: map<u16, seq<u16>>, ghost j: nat,
                 ghost k: nat)
    returns (ok: bool)
    requires OnDisk(disk.sectors, g) && Laid(g, m) && IsDir(m, d) && IsAt(disk.sectors, g, m, d, loc, j, k)
    modifies disk
    ensures OnlyArea(old(disk.sectors), disk.sectors, g, m, d)
    ensures SlotPut(old(disk.sectors), disk.sectors, g, m, d, k, e)
            || (!ok && DirSlots(disk.sectors, g, m, d) == DirSlots(old(disk.sectors), g, m, d))
    ensures old(disk.Reliable()) ==> disk.Reliable() && ok
  {
    hide FileBytes, RootBytes, Slots, Span, Splice, PutSlot, SectorRun;
    match loc
    case InRoot(sec, i, buf) =>
      ok := disk.Write(g.rootStart + sec, Splice(buf, 32 * i, e));
      RootPut(old(disk.sectors), g, m, sec, i, e);
    case InChain(cluster, i, buf) =>
      ghost var done;
      ok, done := WriteCluster(g, disk, cluster, Splice(buf, 32 * i, e));
      ClusterRange(g, cluster);
      PartialPatch(old(disk.sectors), disk.sectors, g.Lba(cluster), g.sectorsPerCluster, buf, i, e, done);
      if 512 * done <= 32 * i {
        ChainSame(old(disk.sectors), disk.sectors, g, m, d, j);
      } else {
        ChainPut(old(disk.sectors), disk.sectors, g, m, d, j, k, i, e);
      }
  }

  // The sector and byte offset that fat_find_free_entry reports for a slot: always the
  // first sector of the cluster, so an index of 16 or more gives an offset past it.
  function EntrySector(g: Geometry, loc: Location): nat
    requires !loc.Nowhere?
  {
    if loc.InRoot? then g.rootStart + loc.sec else g.Lba(loc.cluster)
  }

  // The slot's bytes lie in the reported sector.
  predicate Writable(loc: Location) {
    !loc.Nowhere? && loc.i < 16
  }

  // The same, told from the slot's number: in a subdirectory only the first 16 slots of
  // each cluster can be written.
  predicate SlotWritable(g: Geometry, d: u16, k: nat)
    requires g.Valid()
  {
    d == 0 || k % (16 * g.sectorsPerCluster) < 16
  }

  lemma WritableSlot(disk: seq<Sector>, g: Geometry, m: map<u16, seq<u16>>, d: u16, loc: Location, j: nat, k: nat)
    requires OnDisk(disk, g) && Laid(g, m) && IsDir(m, d) && IsAt(disk, g, m, d, loc, j, k)
    ensures Writable(loc) <==> SlotWritable(g, d, k)
  {
    hide ClusterBytes;
    if loc.InChain? {
      SpanIsProduct(j, g.ClusterSize());
      Remainder(k, j, 16 * g.sectorsPerCluster, loc.i);
    }
  }

  /** The 17th slot of a subdirectory with 2048-byte clusters cannot be written. */
  lemma UnwritableExample(g: Geometry, cluster: u16, buf: seq<byte>)
    requires g.Valid() && g.sectorsPerCluster == 4
    ensures !SlotWritable(g, 5, 16) && !Writable(InChain(cluster, 16, buf))
  {
    assert 16 % (16 * g.sectorsPerCluster) == 16;
  }

  lemma {:induction false} Remainder(k: nat, j: nat, n: nat, i: nat)
    requires n == 16 || n == 32 || n == 48 || n == 64
    requires i < n && k == j * n + i
    ensures k % n == i
    decreases j
  {
    if j > 0 {
      assert (j - 1) * n == j * n - n;
      Remainder(k - n, j - 1, n, i);
      AddDivisor(k - n, n);
    }
  }

  lemma AddDivisor(x: nat, n: nat)
    requires n == 16 || n == 32 || n == 48 || n == 64
    ensures (x + n) % n == x % n
  {
    if n == 16 {
      assert (x + 16) % 16 == x % 16;
    } else if n == 32 {
      assert (x + 32) % 32 == x % 32;
    } else if n == 48 {
      assert (x + 48) % 48 == x % 48;
    } else {
      assert (x + 64) % 64 == x % 64;
    }
  }

  /** fat_write_dir_entry at the slot found by fat_find_free_entry.  An offset past the
      sector misses the sector buffer, so the sector is written back as it was. */
  method WriteDirEntry(g: Geometry, disk: Disk, d: u16, loc: Location, e: Slot, ghost m: map<u16, seq<u16>>,
                       ghost j: nat, ghost k: nat)
    returns (ok: bool)
    requires OnDisk(disk.sectors, g) && Laid(g, m) && IsDir(m, d) && IsAt(disk.sectors, g, m, d, loc, j, k)
    modifies disk
    ensures OnlyArea(old(disk.sectors), disk.sectors, g, m, d)
    ensures ok && Writable(loc) ==> SlotPut(old(disk.sectors), disk.sectors, g, m, d, k, e)
    ensures !ok || !Writable(loc) ==> disk.sectors == old(disk.sectors)
    ensures old(disk.Reliable()) ==> disk.Reliable() && ok
  {
    hide FileBytes, RootBytes, Slots, Span, PutSlot, SectorRun;
    var sector, offset := EntrySector(g, loc), 32 * loc.i;
    if loc.InChain? {
      ClusterRange(g, loc.cluster);
    }
    var buffer: seq<byte> := seq(512, _ => 0);
    ok, buffer := disk.Read(sector, buffer, 0);
    if !ok {
      return;
    }
    assert buffer == disk.sectors[sector];
    if offset + 32 <= 512 {
      buffer := Splice(buffer, offset, e);
    }
    ok := disk.Write(sector, buffer);
    if ok && Writable(loc) {
      EntryPut(old(disk.sectors), disk.sectors, g, m, d, loc, e, j, k);
    }
  }

  lemma EntryPut(a: seq<Sector>, b: seq<Sector>, g: Geometry, m: map<u16, seq<u16>>, d: u16, loc: Location, e: Slot,
                 j: nat, k: nat)
    requires OnDisk(a, g) && Laid(g, m) && IsDir(m, d) && IsAt(a, g, m, d, loc, j, k) && Writable(loc)
    requires EntrySector(g, loc) < |a|
    requires b == a[EntrySector(g, loc) := Splice(a[EntrySector(g, loc)], 32 * loc.i, e)]
    ensures OnlyArea(a, b, g, m, d) && SlotPut(a, b, g, m, d, k, e)
  {
    hide FileBytes, RootBytes, Slots, Span, PutSlot, SectorRun, Splice;
    match loc
    case InRoot(sec, i, buf) =>
      RootPut(a, g, m, sec, i, e);
    case InChain(cluster, i, buf) =>
      ClusterRange(g, cluster);
      SectorRunPatched(a, g.Lba(cluster), g.sectorsPerCluster, 0, 32 * i, e);
      ChainPut(a, b, g, m, d, j, k, i, e);
  }
}
