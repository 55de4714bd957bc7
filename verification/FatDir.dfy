/**
 Directories of fs/fat.c as sequences of 32-byte slots: entry fields, the scans that
 search a directory, and the sector and cluster writes that change one slot.
 */
module FatDir {
  import opened FatTable
  import opened FatGeometry
  import opened FatData
  import opened FatIo
  import opened FatNames

  type Slot = e: seq<byte> | |e| == 32 witness seq(32, i => 0)

  // ---------------------------------------------------------------- entry fields

  function NameOf(e: Slot): (r: seq<byte>)
    ensures |r| == 11
  {
    e[..11]
  }

  function FirstCluster(e: Slot): u16 {
    e[26] as int + 256 * e[27] as int
  }

  function FileSize(e: Slot): nat {
    e[28] as int + 0x100 * e[29] as int + 0x1_0000 * e[30] as int + 0x100_0000 * e[31] as int
  }

  predicate IsDirectory(e: Slot) {
    e[11] / 16 % 2 == 1
  }

  predicate IsVacant(e: Slot) {
    e[0] == 0 || e[0] == DELETED
  }

  // fat_is_valid_entry: in use, and neither a long-name entry nor the volume label.
  predicate IsValidEntry(e: Slot) {
    !IsVacant(e) && e[11] % 16 != 0x0F && e[11] / 8 % 2 == 0
  }

  function Le16(x: u16): (r: seq<byte>)
    ensures |r| == 2
  {
    [x % 256, x / 256]
  }

  function Le32(x: nat): (r: seq<byte>)
    requires x < 0x1_0000_0000
    ensures |r| == 4
  {
    [x % 0x100, x / 0x100 % 0x100, x / 0x1_0000 % 0x100, x / 0x100_0000]
  }

  // The entry that create and mkdir write: all other fields zero.
  function NewEntry(name: seq<byte>, attributes: byte, first: u16): (e: Slot)
    requires |name| == 11
    ensures NameOf(e) == name && e[11] == attributes && FirstCluster(e) == first && FileSize(e) == 0
  {
    name + [attributes] + seq(14, _ => 0) + Le16(first) + Le32(0)
  }

  // The entry after fat_node_write has stored the new size and first cluster.
  function WithSize(e: Slot, first: u16, size: nat): (r: Slot)
    requires size < 0x1_0000_0000
    ensures r[..26] == e[..26] && FirstCluster(r) == first && FileSize(r) == size
  {
    var r: Slot := e[..26] + Le16(first) + Le32(size);
    assert forall i :: 28 <= i < 32 ==> r[i] == Le32(size)[i - 28];
    Le32Value(size);
    r
  }

  lemma Le32Value(x: nat)
    requires x < 0x1_0000_0000
    ensures x == Le32(x)[0] as int + 0x100 * Le32(x)[1] as int + 0x1_0000 * Le32(x)[2] as int
            + 0x100_0000 * Le32(x)[3] as int
  {
    assert x / 0x1_0000 == x / 0x100 / 0x100 && x / 0x100_0000 == x / 0x1_0000 / 0x100;
  }

  function Deleted(e: Slot): (r: Slot)
    ensures IsVacant(r) && !IsValidEntry(r)
  {
    e[0 := DELETED]
  }

  // ---------------------------------------------------------------- slots of a directory

  function SlotAt(b: seq<byte>, k: nat): Slot
    requires 32 * k + 32 <= |b|
  {
    b[32 * k..32 * k + 32]
  }

  function Slots(b: seq<byte>): (r: seq<Slot>)
    ensures |r| == |b| / 32
  {
    seq(|b| / 32, k requires 0 <= k < |b| / 32 => SlotAt(b, k))
  }

  function PutSlot(v: seq<Slot>, k: nat, e: Slot): (r: seq<Slot>)
    requires k < |v|
    ensures |r| == |v| && r[k] == e && forall j :: 0 <= j < |v| && j != k ==> r[j] == v[j]
  {
    v[k := e]
  }

  lemma SlotsAppend(a: seq<byte>, b: seq<byte>)
    requires |a| % 32 == 0
    ensures Slots(a + b) == Slots(a) + Slots(b)
  {
    var p, q := Slots(a + b), Slots(a) + Slots(b);
    assert |p| == |q|;
    forall k | 0 <= k < |p|
      ensures p[k] == q[k]
    {
      if k < |a| / 32 {
        assert SlotAt(a + b, k) == SlotAt(a, k);
      } else {
        assert SlotAt(a + b, k) == SlotAt(b, k - |a| / 32);
      }
    }
  }

  /** Splicing one entry's bytes replaces one slot. */
  lemma SlotsSplice(b: seq<byte>, k: nat, e: Slot)
    requires k < |b| / 32
    ensures Slots(Splice(b, 32 * k, e)) == PutSlot(Slots(b), k, e)
  {
    var c := Splice(b, 32 * k, e);
    forall j | 0 <= j < |b| / 32
      ensures SlotAt(c, j) == PutSlot(Slots(b), k, e)[j]
    {
      if j < k {
        assert SlotAt(c, j) == SlotAt(b, j);
      } else if j > k {
        assert SlotAt(c, j) == SlotAt(b, j);
      } else {
        assert SlotAt(c, j) == e;
      }
    }
  }

  // What a scan looks for: a valid entry with this 8.3 name, or a vacant slot.
  datatype Query = Named(name: seq<byte>) | Vacant

  predicate Matches(q: Query, e: Slot) {
    match q
    case Named(name) => IsValidEntry(e) && NameOf(e) == name
    case Vacant => IsVacant(e)
  }

  // Index of the first matching slot, or the number of slots.
  function FirstMatch(q: Query, v: seq<Slot>): (r: nat)
    ensures r <= |v|
    ensures r < |v| ==> Matches(q, v[r])
    ensures forall k :: 0 <= k < r ==> !Matches(q, v[k])
  {
    if v == [] || Matches(q, v[0]) then 0 else 1 + FirstMatch(q, v[1..])
  }

  lemma FirstMatchIs(q: Query, v: seq<Slot>, r: nat)
    requires r <= |v| && (r < |v| ==> Matches(q, v[r]))
    requires forall k :: 0 <= k < r ==> !Matches(q, v[k])
    ensures FirstMatch(q, v) == r
  {
  }

  lemma FirstMatchAppend(q: Query, a: seq<Slot>, b: seq<Slot>)
    requires FirstMatch(q, a) == |a|
    ensures FirstMatch(q, a + b) == |a| + FirstMatch(q, b)
  {
    FirstMatchIs(q, a + b, |a| + FirstMatch(q, b));
  }

  lemma FirstMatchPrefix(q: Query, a: seq<Slot>, b: seq<Slot>)
    requires FirstMatch(q, a) < |a|
    ensures FirstMatch(q, a + b) == FirstMatch(q, a)
  {
    FirstMatchIs(q, a + b, FirstMatch(q, a));
  }

  // The inner loop of every scan, over the entries of one buffer.
  method ScanBuffer(b: seq<byte>, count: nat, q: Query) returns (i: nat)
    requires 32 * count <= |b|
    ensures i == FirstMatch(q, Slots(b[..32 * count])) <= count
    ensures i < count ==> Matches(q, SlotAt(b, i))
  {
    i := 0;
    ghost var v := Slots(b[..32 * count]);
    while i < count
      invariant 0 <= i <= count
      invariant forall k :: 0 <= k < i ==> !Matches(q, v[k])
    {
      assert v[i] == SlotAt(b[..32 * count], i) == SlotAt(b, i);
      if Matches(q, SlotAt(b, i)) {
        FirstMatchIs(q, v, i);
        return;
      }
      i := i + 1;
    }
    FirstMatchIs(q, v, i);
  }

  // ---------------------------------------------------------------- scans

  ghost function RootBytes(disk: seq<Sector>, g: Geometry): (r: seq<byte>)
    requires OnDisk(disk, g)
    ensures |r| == 512 * g.RootSectors()
  {
    SectorRun(disk, g.rootStart, g.RootSectors())
  }

  lemma {:induction false} SectorRunPrefix(disk: seq<Sector>, lba: nat, a: nat, b: nat)
    requires a <= b && lba + b <= |disk|
    ensures SectorRun(disk, lba, b)[..512 * a] == SectorRun(disk, lba, a)
    decreases b
  {
    if a < b {
      SectorRunPrefix(disk, lba, a, b - 1);
      assert SectorRun(disk, lba, b)[..512 * a] == SectorRun(disk, lba, b - 1)[..512 * a];
    }
  }

  lemma SectorRunAt(disk: seq<Sector>, lba: nat, a: nat, b: nat)
    requires a < b && lba + b <= |disk|
    ensures SectorRun(disk, lba, b)[512 * a..512 * a + 512] == disk[lba + a]
  {
    SectorRunPrefix(disk, lba, a + 1, b);
    var p := SectorRun(disk, lba, b);
    assert p[512 * a..512 * a + 512] == p[..512 * (a + 1)][512 * a..];
  }

  // No slot in the first `at` bytes of the directory matches.
  ghost predicate NoneBefore(q: Query, whole: seq<byte>, at: nat) {
    at % 32 == 0 && at <= |whole| && FirstMatch(q, Slots(whole[..at])) == at / 32
  }

  // The scan reports the first match of the directory, at slot k.
  ghost predicate Located(q: Query, whole: seq<byte>, found: bool, k: nat) {
    var f := FirstMatch(q, Slots(whole));
    found == (f < |whole| / 32) && (found ==> f == k)
  }

  lemma ScanStart(q: Query, whole: seq<byte>)
    ensures NoneBefore(q, whole, 0)
  {
    assert whole[..0] == [];
  }

  lemma ScanEnd(q: Query, whole: seq<byte>, k: nat)
    requires NoneBefore(q, whole, |whole|)
    ensures Located(q, whole, false, k)
  {
    assert whole[..|whole|] == whole;
  }

  // Scanning one block behind a prefix without a match.
  lemma ScanBlock(q: Query, whole: seq<byte>, at: nat, size: nat, block: seq<byte>)
    requires NoneBefore(q, whole, at)
    requires size % 32 == 0 && at + size <= |whole| && block == whole[at..at + size]
    ensures var i := FirstMatch(q, Slots(block));
            if i < size / 32 then Located(q, whole, true, at / 32 + i)
            else NoneBefore(q, whole, at + size)
  {
    hide FirstMatch, Slots;
    var pre, rest := whole[..at], whole[at + size..];
    SlotsAppend(pre, block);
    assert whole[..at + size] == pre + block;
    FirstMatchAppend(q, Slots(pre), Slots(block));
    if FirstMatch(q, Slots(block)) < size / 32 {
      SlotsAppend(pre + block, rest);
      assert whole == pre + block + rest;
      FirstMatchPrefix(q, Slots(pre + block), Slots(rest));
    }
  }

  method ScanRoot(g: Geometry, disk: Disk, q: Query) returns (found: bool, sec: nat, i: nat, buf: seq<byte>)
    requires OnDisk(disk.sectors, g)
    modifies disk`clock
    ensures found ==> && sec < g.RootSectors() && i < 16 && |buf| == 512
                      && buf == disk.sectors[g.rootStart + sec] && Matches(q, SlotAt(buf, i))
    ensures old(disk.Reliable()) ==> disk.Reliable() && Located(q, RootBytes(disk.sectors, g), found, 16 * sec + i)
    ensures old(disk.FailsOnce()) && g.RootSectors() > 0 ==> disk.Reliable() && (found ==> sec > 0)
  {
    hide SectorRun, RootBytes, Slots, FirstMatch, Matches, NoneBefore, Located;
    ghost var whole := RootBytes(disk.sectors, g);
    ghost var reliable := disk.Reliable();
    found, sec, i, buf := false, 0, 0, seq(512, _ => 0);
    ghost var at := 0;
    ScanStart(q, whole);
    while sec < g.RootSectors()
      invariant sec <= g.RootSectors() && |buf| == 512
      invariant at == 512 * sec
      invariant reliable ==> disk.Reliable() && NoneBefore(q, whole, at)
      invariant old(disk.FailsOnce()) ==> if sec == 0 then disk.FailsOnce() else disk.Reliable()
    {
      var ok;
      ok, buf := disk.Read(g.rootStart + sec, buf, 0);
      if ok {
        i := ScanBuffer(buf, 16, q);
        if reliable {
          ScanRootStep(disk.sectors, g, q, sec, at, buf);
        }
        if i < 16 {
          return true, sec, i, buf;
        }
      }
      sec, at := sec + 1, at + 512;
    }
    if reliable {
      ScanEnd(q, whole, 16 * sec);
    }
    return false, sec, 0, buf;
  }

  lemma ScanRootStep(disk: seq<Sector>, g: Geometry, q: Query, sec: nat, at: nat, buf: seq<byte>)
    requires OnDisk(disk, g) && sec < g.RootSectors() && |buf| == 512 && buf == disk[g.rootStart + sec]
    requires at == 512 * sec && NoneBefore(q, RootBytes(disk, g), at)
    ensures var i := FirstMatch(q, Slots(buf[..32 * 16]));
            if i < 16 then Located(q, RootBytes(disk, g), true, 16 * sec + i)
            else NoneBefore(q, RootBytes(disk, g), at + 512)
  {
    hide SectorRun, FirstMatch, Slots;
    assert buf[..512] == buf;
    SectorRunAt(disk, g.rootStart, sec, g.RootSectors());
    ScanBlock(q, RootBytes(disk, g), at, 512, buf);
  }

  /** The scan over a subdirectory's chain.  A hit is entry i of cluster s[j], which is
      slot k of the directory. */
  method ScanChain(g: Geometry, disk: Disk, fat: ClusterTable, first: u16, q: Query, ghost s: seq<u16>)
    returns (found: bool, cluster: u16, i: nat, buf: seq<byte>, ghost j: nat, ghost k: nat)
    requires OnDisk(disk.sectors, g) && fat.Valid() && fat.n == g.totalClusters + 2
    requires IsChain(fat.T(), fat.n, s) && s[0] == first
    modifies disk`clock
    ensures found ==> && j < |s| && cluster == s[j] && 32 * i + 32 <= g.ClusterSize() && |buf| == BUFFER_SIZE
                      && buf[..g.ClusterSize()] == ClusterBytes(disk.sectors, g, cluster)
                      && Matches(q, SlotAt(buf, i)) && 32 * k == Span(j, g.ClusterSize()) + 32 * i
    ensures old(disk.Reliable()) ==> disk.Reliable() && Located(q, FileBytes(disk.sectors, g, s), found, k)
    ensures old(disk.FailsOnce()) ==> disk.Reliable() && !found
  {
    hide FileBytes, ClusterBytes, Slots, FirstMatch, Matches, NoneBefore, Located;
    found, cluster, i, j, k := false, first, 0, 0, 0;
    buf := seq(BUFFER_SIZE, _ => 0);
    ghost var whole := FileBytes(disk.sectors, g, s);
    ghost var reliable := disk.Reliable();
    var size := g.ClusterSize();
    ScanStart(q, whole);
    while !Stops(cluster)
      invariant j <= |s| && |buf| == BUFFER_SIZE && ChainAt(s, j, cluster)
      invariant 32 * k == Span(j, size)
      invariant reliable ==> disk.Reliable() && NoneBefore(q, whole, 32 * k)
      invariant old(disk.FailsOnce()) ==> j == 0 && disk.FailsOnce()
      decreases |s| - j
    {
      var ok;
      ok, buf := ReadCluster(g, disk, cluster, buf);
      if !ok {
        return;
      }
      i := ScanBuffer(buf, size / 32, q);
      if reliable {
        ScanChainStep(disk.sectors, g, s, q, j, k, buf);
      }
      if i < size / 32 {
        found, k := true, k + i;
        return;
      }
      cluster := fat.GetNext(cluster);
      j, k := j + 1, k + size / 32;
    }
    if reliable {
      ScanEnd(q, whole, k);
    }
  }

  lemma ScanChainStep(disk: seq<Sector>, g: Geometry, s: seq<u16>, q: Query, j: nat, k: nat, buf: seq<byte>)
    requires OnDisk(disk, g) && AllClusters(g, s) && j < |s| && 32 * k == Span(j, g.ClusterSize())
    requires |buf| == BUFFER_SIZE && buf[..g.ClusterSize()] == ClusterBytes(disk, g, s[j])
    requires NoneBefore(q, FileBytes(disk, g, s), 32 * k)
    ensures var n := g.ClusterSize() / 32;
            var i := FirstMatch(q, Slots(buf[..32 * n]));
            if i < n then Located(q, FileBytes(disk, g, s), true, k + i)
            else NoneBefore(q, FileBytes(disk, g, s), 32 * (k + n))
  {
    hide FileBytes, ClusterBytes, FirstMatch, Slots, NoneBefore, Located;
    var size := g.ClusterSize();
    assert 32 * (size / 32) == size;
    FileBytesSplit(disk, g, s, j);
    ScanBlock(q, FileBytes(disk, g, s), 32 * k, size, buf[..size]);
  }

  // ---------------------------------------------------------------- changing one slot

  /** Patching one sector of a run patches the run's bytes. */
  lemma {:induction false} SectorRunPatched(a: seq<Sector>, lba: nat, n: nat, sec: nat, off: nat, e: seq<byte>)
    requires lba + n <= |a| && sec < n && off + |e| <= 512
    ensures var b := a[lba + sec := Splice(a[lba + sec], off, e)];
            SectorRun(b, lba, n) == Splice(SectorRun(a, lba, n), 512 * sec + off, e)
    decreases n
  {
    hide Splice;
    var b := a[lba + sec := Splice(a[lba + sec], off, e)];
    if sec == n - 1 {
      SectorRunFrame(a, b, lba, n - 1);
      SpliceRight(SectorRun(a, lba, n - 1), a[lba + sec], off, e);
    } else {
      SectorRunPatched(a, lba, n - 1, sec, off, e);
      SpliceLeft(SectorRun(a, lba, n - 1), a[lba + n - 1], 512 * sec + off, e);
    }
  }

  lemma SpliceRight(a: seq<byte>, b: seq<byte>, off: nat, x: seq<byte>)
    requires off + |x| <= |b|
    ensures Splice(a + b, |a| + off, x) == a + Splice(b, off, x)
  {
    var p, q := Splice(a + b, |a| + off, x), a + Splice(b, off, x);
    assert |p| == |q|;
    assert forall j :: 0 <= j < |p| ==> p[j] == q[j];
  }

  /** A cluster write of a patched buffer that stops early leaves the cluster's bytes
      either as they were or fully patched: an entry never straddles two sectors. */
  lemma PartialPatch(a: seq<Sector>, b: seq<Sector>, lba: nat, n: nat, buf: seq<byte>, i: nat, e: Slot, done: nat)
    requires 32 * i + 32 <= 512 * n <= |buf| && lba + n <= |a|
    requires buf[..512 * n] == SectorRun(a, lba, n)
    requires PrefixWritten(a, b, lba, n, Splice(buf, 32 * i, e), done)
    ensures SectorRun(b, lba, n) == if 512 * done <= 32 * i then SectorRun(a, lba, n)
                                    else Splice(SectorRun(a, lba, n), 32 * i, e)
  {
    if 512 * done <= 32 * i {
      PatchNotReached(a, b, lba, n, buf, i, e, done);
    } else {
      PatchReached(a, b, lba, n, buf, i, e, done);
    }
  }

  lemma PatchNotReached(a: seq<Sector>, b: seq<Sector>, lba: nat, n: nat, buf: seq<byte>, i: nat, e: Slot, done: nat)
    requires 32 * i + 32 <= 512 * n <= |buf| && lba + n <= |a|
    requires buf[..512 * n] == SectorRun(a, lba, n)
    requires PrefixWritten(a, b, lba, n, Splice(buf, 32 * i, e), done) && 512 * done <= 32 * i
    ensures SectorRun(b, lba, n) == SectorRun(a, lba, n)
  {
    hide SectorRun, Splice, BufferSector;
    forall l | lba <= l < lba + n
      ensures b[l] == a[l]
    {
      RunSector(a, lba, n, buf, l);
      if l < lba + done {
        PatchElsewhere(buf, i, e, l - lba);
      }
    }
    SectorRunFrame(a, b, lba, n);
  }

  lemma PatchReached(a: seq<Sector>, b: seq<Sector>, lba: nat, n: nat, buf: seq<byte>, i: nat, e: Slot, done: nat)
    requires 32 * i + 32 <= 512 * n <= |buf| && lba + n <= |a|
    requires buf[..512 * n] == SectorRun(a, lba, n)
    requires PrefixWritten(a, b, lba, n, Splice(buf, 32 * i, e), done) && 512 * done > 32 * i
    ensures SectorRun(b, lba, n) == Splice(SectorRun(a, lba, n), 32 * i, e)
  {
    hide SectorRun, Splice, BufferSector;
    forall l | lba <= l < lba + n
      ensures b[l] == BufferSector(Splice(buf, 32 * i, e), l - lba)
    {
      RunSector(a, lba, n, buf, l);
      if l >= lba + done {
        PatchElsewhere(buf, i, e, l - lba);
      }
    }
    PrefixBytes(b, lba, Splice(buf, 32 * i, e), n);
    AroundRead(buf, SectorRun(a, lba, n), 32 * i, 32);
    PatchedCluster(buf, SectorRun(a, lba, n), 32 * i, e);
  }

  lemma PatchElsewhere(buf: seq<byte>, i: nat, e: Slot, q: nat)
    requires 32 * i + 32 <= |buf| && 512 * q + 512 <= |buf|
    requires 512 * q + 512 <= 32 * i || 32 * i + 32 <= 512 * q
    ensures BufferSector(Splice(buf, 32 * i, e), q) == BufferSector(buf, q)
  {
    var p, r := BufferSector(Splice(buf, 32 * i, e), q), BufferSector(buf, q);
    assert forall j :: 0 <= j < 512 ==> p[j] == r[j];
  }

  lemma RunSector(a: seq<Sector>, lba: nat, n: nat, buf: seq<byte>, l: nat)
    requires lba <= l < lba + n <= |a| && 512 * n <= |buf|
    requires buf[..512 * n] == SectorRun(a, lba, n)
    ensures a[l] == BufferSector(buf, l - lba)
  {
    hide SectorRun;
    SectorRunAt(a, lba, l - lba, n);
    var k := 512 * (l - lba);
    SliceOfSlice(buf, 0, 512 * n, k, k + 512);
    assert buf[0..512 * n] == buf[..512 * n];
  }

  // ---------------------------------------------------------------- names in a directory

  // No two valid entries of a directory share a name.
  ghost predicate UniqueNames(v: seq<Slot>) {
    forall j, k :: 0 <= j < k < |v| && IsValidEntry(v[j]) && IsValidEntry(v[k]) ==> NameOf(v[j]) != NameOf(v[k])
  }

  ghost predicate SameLookups(v: seq<Slot>, w: seq<Slot>, except: seq<byte>) {
    forall x :: x != except ==> FirstMatch(Named(x), w) == FirstMatch(Named(x), v)
  }

  // Changing a slot matters only to names it matches before or after.
  lemma LookupKept(v: seq<Slot>, k: nat, e: Slot, x: seq<byte>)
    requires k < |v| && Matches(Named(x), v[k]) == Matches(Named(x), e)
    ensures FirstMatch(Named(x), PutSlot(v, k, e)) == FirstMatch(Named(x), v)
  {
    hide IsValidEntry, IsVacant;
    FirstMatchIs(Named(x), PutSlot(v, k, e), FirstMatch(Named(x), v));
  }

  /** A new entry in the first vacant slot, under a name not yet in use: names stay
      unique, every other lookup is unchanged, and the new name is found at that slot
      unless it starts with the deletion mark 0xE5. */
  lemma CreatedLookup(v: seq<Slot>, e: Slot)
    requires UniqueNames(v) && e[0] != 0 && (IsValidEntry(e) || e[0] == DELETED)
    requires FirstMatch(Named(NameOf(e)), v) == |v| && FirstMatch(Vacant, v) < |v|
    ensures var k := FirstMatch(Vacant, v);
            var w := PutSlot(v, k, e);
            && UniqueNames(w) && SameLookups(v, w, NameOf(e))
            && FirstMatch(Named(NameOf(e)), w) == if e[0] == DELETED then |v| else k
  {
    var k, n := FirstMatch(Vacant, v), NameOf(e);
    var w := PutSlot(v, k, e);
    assert Matches(Vacant, v[k]);
    forall x | x != n
      ensures FirstMatch(Named(x), w) == FirstMatch(Named(x), v)
    {
      LookupKept(v, k, e, x);
    }
    assert forall j :: 0 <= j < |v| ==> !Matches(Named(n), v[j]);
    FirstMatchIs(Named(n), w, if e[0] == DELETED then |v| else k);
  }

  /** Deleting the entry a lookup finds: the name is gone, all other lookups are
      unchanged, and names stay unique. */
  lemma DeletedLookup(v: seq<Slot>, name: seq<byte>)
    requires UniqueNames(v) && FirstMatch(Named(name), v) < |v|
    ensures var k := FirstMatch(Named(name), v);
            var w := PutSlot(v, k, Deleted(v[k]));
            UniqueNames(w) && SameLookups(v, w, name) && FirstMatch(Named(name), w) == |v|
  {
    var k := FirstMatch(Named(name), v);
    var w := PutSlot(v, k, Deleted(v[k]));
    assert Matches(Named(name), v[k]);
    forall x | x != name
      ensures FirstMatch(Named(x), w) == FirstMatch(Named(x), v)
    {
      LookupKept(v, k, Deleted(v[k]), x);
    }
    forall j | 0 <= j < |v|
      ensures !Matches(Named(name), w[j])
    {
    }
    FirstMatchIs(Named(name), w, |v|);
  }

  /** Rewriting size and first cluster of an entry changes no lookup. */
  lemma ResizedLookup(v: seq<Slot>, k: nat, first: u16, size: nat)
    requires k < |v| && UniqueNames(v) && size < 0x1_0000_0000
    ensures var w := PutSlot(v, k, WithSize(v[k], first, size));
            UniqueNames(w) && forall x :: FirstMatch(Named(x), w) == FirstMatch(Named(x), v)
  {
    hide Le16, Le32;
    var e := WithSize(v[k], first, size);
    ResizedSame(v[k], first, size);
    forall x
      ensures FirstMatch(Named(x), PutSlot(v, k, e)) == FirstMatch(Named(x), v)
    {
      LookupKept(v, k, e, x);
    }
  }

  lemma ResizedSame(e: Slot, first: u16, size: nat)
    requires size < 0x1_0000_0000
    ensures var r := WithSize(e, first, size);
            NameOf(r) == NameOf(e) && r[0] == e[0] && r[11] == e[11]
  {
    var r := WithSize(e, first, size);
    assert forall i :: 0 <= i < 26 ==> r[i] == r[..26][i] == e[..26][i] == e[i];
  }
}
