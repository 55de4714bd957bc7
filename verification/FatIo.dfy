/**
 Cluster I/O and file I/O of fs/fat.c along a cluster chain, proved against the byte
 sequence that the chain stands for.
 */
module FatIo {
  import opened FatTable
  import opened FatGeometry
  import opened FatData

  const BUFFER_SIZE: nat := 2048

  // A function's static buffer: whatever its last call left in it.
  method StaticBuffer() returns (buf: seq<byte>)
    ensures |buf| == BUFFER_SIZE
  {
    buf := *;
    if |buf| != BUFFER_SIZE {
      buf := seq(BUFFER_SIZE, _ => 0);
    }
  }

  method ReadCluster(g: Geometry, disk: Disk, c: u16, buf: seq<byte>) returns (ok: bool, r: seq<byte>)
    requires OnDisk(disk.sectors, g) && g.IsCluster(c) && |buf| == BUFFER_SIZE
    modifies disk`clock
    ensures |r| == BUFFER_SIZE
    ensures ok ==> r[..g.ClusterSize()] == ClusterBytes(disk.sectors, g, c)
    ensures old(disk.Reliable()) ==> disk.Reliable() && ok
    ensures old(disk.FailsOnce()) ==> disk.Reliable() && !ok && r == buf
  {
    ClusterRange(g, c);
    var lba := g.Lba(c);
    r := buf;
    var i := 0;
    while i < g.sectorsPerCluster
      invariant 0 <= i <= g.sectorsPerCluster && |r| == BUFFER_SIZE
      invariant r[..i * 512] == SectorRun(disk.sectors, lba, i)
      invariant old(disk.Reliable()) ==> disk.Reliable()
      invariant old(disk.FailsOnce()) ==> i == 0 && disk.FailsOnce() && r == buf
    {
      ghost var before := r;
      ok, r := disk.Read(lba + i, r, i * 512);
      if !ok {
        return false, r;
      }
      assert r[..(i + 1) * 512] == before[..i * 512] + disk.sectors[lba + i];
      i := i + 1;
    }
    return true, r;
  }

  method WriteCluster(g: Geometry, disk: Disk, c: u16, buf: seq<byte>) returns (ok: bool, ghost done: nat)
    requires OnDisk(disk.sectors, g) && g.IsCluster(c) && |buf| == BUFFER_SIZE
    modifies disk
    ensures OnlyCluster(old(disk.sectors), disk.sectors, g, c)
    ensures done <= g.sectorsPerCluster && (ok ==> done == g.sectorsPerCluster)
    ensures PrefixWritten(old(disk.sectors), disk.sectors, g.Lba(c), g.sectorsPerCluster, buf, done)
    ensures ok ==> ClusterBytes(disk.sectors, g, c) == buf[..g.ClusterSize()]
    ensures old(disk.Reliable()) ==> disk.Reliable() && ok
  {
    ClusterRange(g, c);
    var lba := g.Lba(c);
    var i := 0;
    done := 0;
    ok := true;
    while i < g.sectorsPerCluster
      invariant 0 <= i == done <= g.sectorsPerCluster
      invariant OnlyCluster(old(disk.sectors), disk.sectors, g, c)
      invariant PrefixWritten(old(disk.sectors), disk.sectors, lba, g.sectorsPerCluster, buf, i)
      invariant old(disk.Reliable()) ==> disk.Reliable()
    {
      ok := disk.Write(lba + i, BufferSector(buf, i));
      if !ok {
        return;
      }
      i, done := i + 1, done + 1;
    }
    PrefixBytes(disk.sectors, lba, buf, i);
  }

  function BufferSector(buf: seq<byte>, i: nat): Sector
    requires 512 * i + 512 <= |buf|
  {
    buf[512 * i..512 * i + 512]
  }

  // Of the `count` sectors from lba on, the first k hold the buffer and the rest are old.
  ghost predicate PrefixWritten(a: seq<Sector>, b: seq<Sector>, lba: nat, count: nat, buf: seq<byte>, k: nat)
  {
    && lba + count <= |a| == |b| && 512 * count <= |buf| && k <= count
    && (forall l :: lba <= l < lba + k ==> b[l] == BufferSector(buf, l - lba))
    && (forall l :: lba + k <= l < lba + count ==> b[l] == a[l])
  }

  lemma {:induction false} PrefixBytes(b: seq<Sector>, lba: nat, buf: seq<byte>, k: nat)
    requires lba + k <= |b| && 512 * k <= |buf|
    requires forall l :: lba <= l < lba + k ==> b[l] == BufferSector(buf, l - lba)
    ensures SectorRun(b, lba, k) == buf[..512 * k]
  {
    if k > 0 {
      PrefixBytes(b, lba, buf, k - 1);
      assert buf[..512 * k] == buf[..512 * (k - 1)] + buf[512 * (k - 1)..512 * k];
    }
  }

  // Skip to the cluster that holds the offset, `skip` clusters down the chain s.
  method SkipClusters(fat: ClusterTable, first: u16, skip: nat, ghost s: seq<u16>) returns (cluster: u16)
    requires fat.Valid() && IsChain(fat.T(), fat.n, s) && s[0] == first
    ensures ChainAt(s, skip, cluster)
  {
    cluster := first;
    var i := 0;
    while i < skip && cluster < EOC
      invariant 0 <= i <= skip
      invariant i <= |s|
      invariant if i < |s| then cluster == s[i] else cluster >= EOC
    {
      cluster := fat.GetNext(cluster);
      i := i + 1;
    }
  }

  // Which cluster of the chain holds the offset, and where in it.
  function SkipCount(offset: nat, clusterSize: nat): (r: nat)
    requires clusterSize > 0
  {
    offset / clusterSize
  }

  function StartWithin(offset: nat, clusterSize: nat): (r: nat)
    requires clusterSize > 0
    ensures r < clusterSize
  {
    offset % clusterSize
  }

  // How many bytes an access of `size` bytes at `offset` can move on `reach` bytes.
  function Moved(size: nat, offset: nat, reach: nat): (r: nat)
    ensures r <= size
  {
    if offset >= reach then 0 else if size <= reach - offset then size else reach - offset
  }

  // `cluster` is cluster i of the chain s, or an end mark behind it.
  ghost predicate ChainAt(s: seq<u16>, i: nat, cluster: u16) {
    if i < |s| then cluster == s[i] else cluster >= EOC
  }

  // An access at `offset` has moved `done` of `size` bytes and stands at byte `within`
  // of cluster i of the chain s.
  ghost predicate Progress(s: seq<u16>, clusterSize: nat, offset: nat, size: nat, done: nat, i: nat, within: nat,
                           cluster: u16)
  {
    && ChainAt(s, i, cluster)
    && done <= size
    && within < clusterSize
    && (within > 0 ==> done == 0)
    && if offset >= Span(|s|, clusterSize) then done == 0 && i >= |s|
       else && i <= |s|
            && offset + done <= Span(|s|, clusterSize)
            && (done < size ==> offset + done == Span(i, clusterSize) + within)
            && (i == |s| ==> within == 0)
  }

  lemma ProgressStart(s: seq<u16>, clusterSize: nat, offset: nat, size: nat, cluster: u16)
    requires clusterSize > 0 && ChainAt(s, SkipCount(offset, clusterSize), cluster)
    ensures Progress(s, clusterSize, offset, size, 0, SkipCount(offset, clusterSize), StartWithin(offset, clusterSize),
                     cluster)
  {
    SkipFacts(offset, clusterSize, |s|);
  }

  lemma ProgressEnd(s: seq<u16>, clusterSize: nat, offset: nat, size: nat, done: nat, i: nat, within: nat, cluster: u16)
    requires Progress(s, clusterSize, offset, size, done, i, within, cluster)
    requires done == size || cluster >= EOC
    requires forall j :: 0 <= j < |s| ==> s[j] < EOC
    ensures done == Moved(size, offset, Span(|s|, clusterSize))
  {
  }

  lemma ProgressStep(s: seq<u16>, clusterSize: nat, offset: nat, size: nat, done: nat, i: nat, within: nat,
                     cluster: u16, next: u16)
    requires Progress(s, clusterSize, offset, size, done, i, within, cluster)
    requires done < size && i < |s| && ChainAt(s, i + 1, next)
    ensures var k := Chunk(clusterSize, within, size - done);
            && Progress(s, clusterSize, offset, size, done + k, i + 1, 0, next)
            && offset < Span(|s|, clusterSize)
            && offset + done == Span(i, clusterSize) + within
  {
    SpanMono(i, |s|, clusterSize);
  }

  // The chunk moved at one cluster.
  function Chunk(clusterSize: nat, within: nat, left: nat): (r: nat)
    requires within < clusterSize
  {
    if clusterSize - within > left then left else clusterSize - within
  }

  /** The copy loop of fat_node_read over the chain s. */
  method ReadChain(g: Geometry, disk: Disk, fat: ClusterTable, first: u16, offset: nat, size: nat, ghost s: seq<u16>)
    returns (data: seq<byte>)
    requires OnDisk(disk.sectors, g) && fat.Valid() && fat.n == g.totalClusters + 2
    requires IsChain(fat.T(), fat.n, s) && s[0] == first
    modifies disk`clock
    ensures offset + |data| <= Span(|s|, g.ClusterSize()) || data == []
    ensures data != [] ==> data == FileBytes(disk.sectors, g, s)[offset..offset + |data|]
    ensures |data| <= size
    ensures old(disk.Reliable()) ==>
              disk.Reliable() && |data| == Moved(size, offset, Span(|s|, g.ClusterSize()))
  {
    hide FileBytes, ClusterBytes, Splice, Span;
    var clusterSize := g.ClusterSize();
    var skip := SkipCount(offset, clusterSize);
    var cluster: u16 := SkipClusters(fat, first, skip, s);
    var within: nat := StartWithin(offset, clusterSize);
    var buf := StaticBuffer();
    data := [];
    ghost var i: nat := skip;
    ProgressStart(s, clusterSize, offset, size, cluster);
    while |data| < size && !Stops(cluster)
      invariant |buf| == BUFFER_SIZE
      invariant Progress(s, clusterSize, offset, size, |data|, i, within, cluster)
      invariant offset < Span(|s|, clusterSize) ==> IsRead(disk.sectors, g, s, offset, data)
      invariant old(disk.Reliable()) ==> disk.Reliable()
      decreases |s| - i
    {
      var ok;
      ok, buf := ReadCluster(g, disk, cluster, buf);
      if !ok {
        return;
      }
      var k := Chunk(clusterSize, within, size - |data|);
      var next := fat.GetNext(cluster);
      ProgressStep(s, clusterSize, offset, size, |data|, i, within, cluster, next);
      IsReadStep(disk.sectors, g, s, offset, data, i, within, k, buf);
      data := data + buf[within..within + k];
      within := 0;
      cluster := next;
      i := i + 1;
    }
    ProgressEnd(s, clusterSize, offset, size, |data|, i, within, cluster);
  }

  ghost predicate IsRead(disk: seq<Sector>, g: Geometry, s: seq<u16>, offset: nat, data: seq<byte>)
    requires OnDisk(disk, g) && AllClusters(g, s)
  {
    && offset + |data| <= Span(|s|, g.ClusterSize())
    && data == FileBytes(disk, g, s)[offset..offset + |data|]
  }

  lemma IsReadStep(disk: seq<Sector>, g: Geometry, s: seq<u16>, offset: nat, data: seq<byte>,
                   i: nat, within: nat, k: nat, buf: seq<byte>)
    requires OnDisk(disk, g) && AllClusters(g, s) && i < |s|
    requires IsRead(disk, g, s, offset, data) && offset + |data| == Span(i, g.ClusterSize()) + within
    requires |buf| == BUFFER_SIZE && buf[..g.ClusterSize()] == ClusterBytes(disk, g, s[i])
    requires within + k <= g.ClusterSize()
    ensures IsRead(disk, g, s, offset, data + buf[within..within + k])
  {
    hide FileBytes, ClusterBytes, Span;
    TakeChunk(disk, g, s, i, within, k, buf);
    SliceAppend(FileBytes(disk, g, s), offset, offset + |data|, offset + |data| + k);
  }

  lemma SliceAppend(f: seq<byte>, a: nat, b: nat, c: nat)
    requires a <= b <= c <= |f|
    ensures f[a..b] + f[b..c] == f[a..c]
  {
  }

  lemma SkipFacts(offset: nat, clusterSize: nat, count: nat)
    requires clusterSize > 0
    ensures offset == Span(SkipCount(offset, clusterSize), clusterSize) + StartWithin(offset, clusterSize)
    ensures SkipCount(offset, clusterSize) < count ==> offset < Span(count, clusterSize)
    ensures SkipCount(offset, clusterSize) >= count ==> offset >= Span(count, clusterSize)
  {
    var q := SkipCount(offset, clusterSize);
    SpanIsProduct(q, clusterSize);
    if q < count {
      SpanMono(q, count, clusterSize);
    } else {
      SpanMono(count, q, clusterSize);
    }
  }

  // A chunk of a cluster's buffer is the same chunk of the file.
  lemma TakeChunk(disk: seq<Sector>, g: Geometry, s: seq<u16>, i: nat, within: nat, k: nat, buf: seq<byte>)
    requires OnDisk(disk, g) && AllClusters(g, s) && i < |s|
    requires |buf| == BUFFER_SIZE && buf[..g.ClusterSize()] == ClusterBytes(disk, g, s[i])
    requires within + k <= g.ClusterSize()
    ensures Span(i, g.ClusterSize()) + within + k <= Span(|s|, g.ClusterSize())
    ensures var at := Span(i, g.ClusterSize()) + within;
            buf[within..within + k] == FileBytes(disk, g, s)[at..at + k]
  {
    hide FileBytes, ClusterBytes, Span;
    var size := g.ClusterSize();
    FileBytesSplit(disk, g, s, i);
    var f, lo := FileBytes(disk, g, s), Span(i, size);
    SameSlice(f, lo, buf, size, within, k);
  }

  lemma SameSlice(f: seq<byte>, lo: nat, buf: seq<byte>, size: nat, within: nat, k: nat)
    requires lo + size <= |f| && size <= |buf| && f[lo..lo + size] == buf[..size]
    requires within + k <= size
    ensures buf[within..within + k] == f[lo + within..lo + within + k]
  {
    SliceOfSlice(f, lo, lo + size, within, within + k);
    SliceOfSlice(buf, 0, size, within, within + k);
    assert f[lo..lo + size] == buf[0..size];
  }

  lemma SliceOfSlice(f: seq<byte>, lo: nat, hi: nat, a: nat, b: nat)
    requires lo <= hi <= |f| && a <= b <= hi - lo
    ensures f[lo..hi][a..b] == f[lo + a..lo + b]
  {
    var p, q := f[lo..hi][a..b], f[lo + a..lo + b];
    assert |p| == |q|;
    assert forall j :: 0 <= j < |p| ==> p[j] == q[j];
  }

  // ---------------------------------------------------------------- writing

  // a with as much of x as fits written at `off`.
  function Overwrite(a: seq<byte>, off: nat, x: seq<byte>): (r: seq<byte>)
    ensures |r| == |a|
  {
    if off >= |a| then a else Splice(a, off, x[..Moved(|x|, off, |a|)])
  }

  // b differs from a at most in the clusters of s.
  ghost predicate OnlyChain(a: seq<Sector>, b: seq<Sector>, g: Geometry, s: seq<u16>) {
    && |a| == |b|
    && forall l :: 0 <= l < |a| && (forall i :: 0 <= i < |s| ==> !InCluster(g, s[i], l)) ==> b[l] == a[l]
  }

  lemma OnlyChainStep(a: seq<Sector>, b: seq<Sector>, c: seq<Sector>, g: Geometry, s: seq<u16>, i: nat)
    requires OnlyChain(a, b, g, s) && i < |s| && OnlyCluster(b, c, g, s[i])
    ensures OnlyChain(a, c, g, s)
  {
  }

  // The cluster buffer after memcpy of a chunk into it.
  function Patched(buf: seq<byte>, within: nat, chunk: seq<byte>): (r: seq<byte>)
    requires within + |chunk| <= |buf|
    ensures |r| == |buf|
  {
    Splice(buf, within, chunk)
  }

  // Outside the chunk the buffer holds the cluster's bytes.
  ghost predicate Around(buf: seq<byte>, old_: seq<byte>, within: nat, count: nat)
    requires within + count <= |old_| <= |buf|
  {
    buf[..within] == old_[..within] && buf[within + count..|old_|] == old_[within + count..]
  }

  /** The patched buffer is the cluster with the chunk written into it if and only if the
      buffer held the cluster's other bytes. */
  lemma PatchedCluster(buf: seq<byte>, old_: seq<byte>, within: nat, chunk: seq<byte>)
    requires within + |chunk| <= |old_| <= |buf|
    ensures Patched(buf, within, chunk)[within..within + |chunk|] == chunk
    ensures Patched(buf, within, chunk)[..|old_|] == Splice(old_, within, chunk) <==> Around(buf, old_, within, |chunk|)
  {
    var hi := within + |chunk|;
    var p, q := Patched(buf, within, chunk)[..|old_|], Splice(old_, within, chunk);
    assert p[..within] == buf[..within] && q[..within] == old_[..within];
    assert p[hi..] == buf[hi..|old_|] && q[hi..] == old_[hi..];
    assert p == p[..within] + chunk + p[hi..] && q == q[..within] + chunk + q[hi..];
  }

  // A buffer that was read, or a chunk that is the whole cluster.
  lemma AroundRead(buf: seq<byte>, old_: seq<byte>, within: nat, count: nat)
    requires within + count <= |old_| <= |buf| && (buf[..|old_|] == old_ || (within == 0 && count == |old_|))
    ensures Around(buf, old_, within, count)
  {
    if buf[..|old_|] == old_ {
      assert buf[..within] == buf[..|old_|][..within];
      assert buf[within + count..|old_|] == buf[..|old_|][within + count..];
    }
  }

  /** One cluster's read-modify-write advances the spliced prefix by one chunk. */
  lemma WriteStep(a: seq<Sector>, b: seq<Sector>, g: Geometry, s: seq<u16>, i: nat, within: nat, chunk: seq<byte>)
    requires OnDisk(a, g) && AllClusters(g, s) && Distinct(s) && i < |s|
    requires OnlyCluster(a, b, g, s[i])
    requires within + |chunk| <= g.ClusterSize()
    requires ClusterBytes(b, g, s[i]) == Splice(ClusterBytes(a, g, s[i]), within, chunk)
    ensures Span(i, g.ClusterSize()) + g.ClusterSize() <= Span(|s|, g.ClusterSize())
    ensures FileBytes(b, g, s) == Splice(FileBytes(a, g, s), Span(i, g.ClusterSize()) + within, chunk)
  {
    hide FileBytes, ClusterBytes, Splice;
    FileBytesSplit(a, g, s, i);
    FileBytesUpdate(a, b, g, s, i);
    var f, lo, c := FileBytes(a, g, s), Span(i, g.ClusterSize()), ClusterBytes(a, g, s[i]);
    assert FileBytes(b, g, s) == Splice(f, lo, Splice(c, within, chunk));
    SpliceNested(f, lo, c, within, chunk);
  }

  ghost predicate IsWritten(a: seq<Sector>, b: seq<Sector>, g: Geometry, s: seq<u16>, offset: nat, x: seq<byte>)
    requires OnDisk(a, g) && |a| == |b| && AllClusters(g, s)
  {
    && offset + |x| <= Span(|s|, g.ClusterSize())
    && FileBytes(b, g, s) == Splice(FileBytes(a, g, s), offset, x)
  }

  lemma IsWrittenStep(a: seq<Sector>, b: seq<Sector>, c: seq<Sector>, g: Geometry, s: seq<u16>, offset: nat,
                      data: seq<byte>, done: nat, i: nat, within: nat, chunk: seq<byte>)
    requires OnDisk(a, g) && |a| == |b| && AllClusters(g, s) && Distinct(s) && i < |s|
    requires done + |chunk| <= |data| && chunk == data[done..done + |chunk|]
    requires IsWritten(a, b, g, s, offset, data[..done])
    requires OnlyCluster(b, c, g, s[i])
    requires within + |chunk| <= g.ClusterSize()
    requires ClusterBytes(c, g, s[i]) == Splice(ClusterBytes(b, g, s[i]), within, chunk)
    requires offset + done == Span(i, g.ClusterSize()) + within
    ensures IsWritten(a, c, g, s, offset, data[..done + |chunk|])
  {
    hide FileBytes, ClusterBytes, Splice, Span;
    WriteStep(b, c, g, s, i, within, chunk);
    SpliceAppend(FileBytes(a, g, s), offset, data[..done], chunk);
    assert data[..done + |chunk|] == data[..done] + chunk;
  }

  // The bytes x are in the chain at the offset.
  ghost predicate Stored(b: seq<Sector>, g: Geometry, s: seq<u16>, offset: nat, x: seq<byte>)
    requires OnDisk(b, g) && AllClusters(g, s)
  {
    && offset + |x| <= Span(|s|, g.ClusterSize())
    && FileBytes(b, g, s)[offset..offset + |x|] == x
  }

  // A change in cluster i leaves the bytes in front of it.
  lemma StoredKept(a: seq<Sector>, b: seq<Sector>, g: Geometry, s: seq<u16>, i: nat, offset: nat, x: seq<byte>)
    requires OnDisk(a, g) && AllClusters(g, s) && Distinct(s) && i < |s| && OnlyCluster(a, b, g, s[i])
    requires Stored(a, g, s, offset, x) && (x == [] || offset + |x| <= Span(i, g.ClusterSize()))
    ensures Stored(b, g, s, offset, x)
  {
    hide FileBytes, ClusterBytes, Span;
    FileBytesUpdate(a, b, g, s, i);
    if x != [] {
      SplicePrefix(FileBytes(a, g, s), Span(i, g.ClusterSize()), ClusterBytes(b, g, s[i]), offset, offset + |x|);
    }
  }

  lemma SplicePrefix(a: seq<byte>, at: nat, x: seq<byte>, lo: nat, hi: nat)
    requires at + |x| <= |a| && lo <= hi <= at
    ensures Splice(a, at, x)[lo..hi] == a[lo..hi]
  {
  }

  // A chunk in cluster i behind what is stored.
  lemma StoredStep(a: seq<Sector>, b: seq<Sector>, g: Geometry, s: seq<u16>, offset: nat,
                   data: seq<byte>, done: nat, i: nat, within: nat, chunk: seq<byte>)
    requires OnDisk(a, g) && AllClusters(g, s) && Distinct(s) && i < |s| && OnlyCluster(a, b, g, s[i])
    requires done + |chunk| <= |data| && chunk == data[done..done + |chunk|] && within + |chunk| <= g.ClusterSize()
    requires Stored(a, g, s, offset, data[..done]) && (done == 0 || within == 0)
    requires offset + done == Span(i, g.ClusterSize()) + within
    requires ClusterBytes(b, g, s[i])[within..within + |chunk|] == chunk
    ensures Stored(b, g, s, offset, data[..done + |chunk|])
  {
    hide FileBytes, ClusterBytes, Span;
    StoredKept(a, b, g, s, i, offset, data[..done]);
    FileBytesSplit(b, g, s, i);
    var f, lo := FileBytes(b, g, s), Span(i, g.ClusterSize());
    SliceOfSlice(f, lo, lo + g.ClusterSize(), within, within + |chunk|);
    SliceAppend(f, offset, offset + done, offset + done + |chunk|);
    assert data[..done + |chunk|] == data[..done] + chunk;
  }

  // The state of the write loop: image a has become b, and the first `done` bytes of the
  // data are in the chain; on a reliable disk nothing else has changed in it.
  ghost predicate Writing(a: seq<Sector>, b: seq<Sector>, g: Geometry, s: seq<u16>, offset: nat,
                          data: seq<byte>, done: nat, i: nat, within: nat, cluster: u16, reliable: bool)
    requires OnDisk(a, g) && AllClusters(g, s)
  {
    && OnlyChain(a, b, g, s)
    && Progress(s, g.ClusterSize(), offset, |data|, done, i, within, cluster)
    && (offset < Span(|s|, g.ClusterSize()) ==> Stored(b, g, s, offset, data[..done]))
    && (reliable ==> if offset >= Span(|s|, g.ClusterSize()) then a == b
                     else IsWritten(a, b, g, s, offset, data[..done]))
  }

  lemma WritingStart(a: seq<Sector>, g: Geometry, s: seq<u16>, offset: nat, data: seq<byte>, cluster: u16,
                     reliable: bool)
    requires OnDisk(a, g) && AllClusters(g, s)
    requires ChainAt(s, SkipCount(offset, g.ClusterSize()), cluster)
    ensures Writing(a, a, g, s, offset, data, 0, SkipCount(offset, g.ClusterSize()),
                    StartWithin(offset, g.ClusterSize()), cluster, reliable)
  {
    ProgressStart(s, g.ClusterSize(), offset, |data|, cluster);
  }

  lemma WritingStep(a: seq<Sector>, b: seq<Sector>, c: seq<Sector>, g: Geometry, s: seq<u16>, offset: nat,
                    data: seq<byte>, done: nat, i: nat, within: nat, cluster: u16, next: u16, reliable: bool)
    requires OnDisk(a, g) && AllClusters(g, s) && Distinct(s)
    requires Writing(a, b, g, s, offset, data, done, i, within, cluster, reliable)
    requires done < |data| && i < |s| && ChainAt(s, i + 1, next)
    requires OnlyCluster(b, c, g, s[i])
    requires var chunk := data[done..done + Chunk(g.ClusterSize(), within, |data| - done)];
             && ClusterBytes(c, g, s[i])[within..within + |chunk|] == chunk
             && (reliable ==> ClusterBytes(c, g, s[i]) == Splice(ClusterBytes(b, g, s[i]), within, chunk))
    ensures var k := Chunk(g.ClusterSize(), within, |data| - done);
            Writing(a, c, g, s, offset, data, done + k, i + 1, 0, next, reliable)
  {
    hide FileBytes, ClusterBytes, Splice, Span, IsWritten, Stored, OnlyCluster;
    ProgressStep(s, g.ClusterSize(), offset, |data|, done, i, within, cluster, next);
    OnlyChainStep(a, b, c, g, s, i);
    var k := Chunk(g.ClusterSize(), within, |data| - done);
    StoredStep(b, c, g, s, offset, data, done, i, within, data[done..done + k]);
    if reliable {
      IsWrittenStep(a, b, c, g, s, offset, data, done, i, within, data[done..done + k]);
    }
  }

  // The write of cluster i failed: what was counted is still there.
  lemma WritingFailed(a: seq<Sector>, b: seq<Sector>, c: seq<Sector>, g: Geometry, s: seq<u16>, offset: nat,
                      data: seq<byte>, done: nat, i: nat, within: nat, cluster: u16)
    requires OnDisk(a, g) && AllClusters(g, s) && Distinct(s)
    requires Writing(a, b, g, s, offset, data, done, i, within, cluster, false)
    requires done < |data| && i < |s| && OnlyCluster(b, c, g, s[i])
    ensures OnlyChain(a, c, g, s) && offset < Span(|s|, g.ClusterSize()) && Stored(c, g, s, offset, data[..done])
    ensures done <= Moved(|data|, offset, Span(|s|, g.ClusterSize()))
  {
    hide FileBytes, ClusterBytes, Splice, Span, Stored, OnlyCluster;
    OnlyChainStep(a, b, c, g, s, i);
    StoredKept(b, c, g, s, i, offset, data[..done]);
  }

  lemma WritingEnd(a: seq<Sector>, b: seq<Sector>, g: Geometry, s: seq<u16>, offset: nat,
                   data: seq<byte>, done: nat, i: nat, within: nat, cluster: u16, reliable: bool)
    requires OnDisk(a, g) && AllClusters(g, s)
    requires Writing(a, b, g, s, offset, data, done, i, within, cluster, reliable)
    requires done == |data| || cluster >= EOC
    ensures done == Moved(|data|, offset, Span(|s|, g.ClusterSize()))
    ensures reliable ==> FileBytes(b, g, s) == Overwrite(FileBytes(a, g, s), offset, data)
  {
    ProgressEnd(s, g.ClusterSize(), offset, |data|, done, i, within, cluster);
  }

  /** One iteration of the write loop: read-modify-write of one cluster.  The result of the
      read is ignored, so `seen`, what the chunk is copied over, may be old contents of the
      static buffer; the rest of the cluster survives if and only if it is not. */
  method PatchCluster(g: Geometry, disk: Disk, c: u16, within: nat, chunk: seq<byte>, left: nat, buf: seq<byte>)
    returns (ok: bool, r: seq<byte>, ghost seen: seq<byte>)
    requires OnDisk(disk.sectors, g) && g.IsCluster(c) && |buf| == BUFFER_SIZE
    requires within < g.ClusterSize() && |chunk| == Chunk(g.ClusterSize(), within, left)
    modifies disk
    ensures |r| == |seen| == BUFFER_SIZE
    ensures OnlyCluster(old(disk.sectors), disk.sectors, g, c)
    ensures ok ==> ClusterBytes(disk.sectors, g, c)[within..within + |chunk|] == chunk
    ensures ok ==> (ClusterBytes(disk.sectors, g, c) == Splice(ClusterBytes(old(disk.sectors), g, c), within, chunk)
                    <==> Around(seen, ClusterBytes(old(disk.sectors), g, c), within, |chunk|))
    ensures old(disk.Reliable()) ==>
              disk.Reliable() && ok && Around(seen, ClusterBytes(old(disk.sectors), g, c), within, |chunk|)
    ensures old(disk.FailsOnce()) && (within > 0 || left < g.ClusterSize()) ==> disk.Reliable() && ok && seen == buf
  {
    hide ClusterBytes, Patched, Around, Splice;
    ghost var whole := ClusterBytes(disk.sectors, g, c);
    r := buf;
    var ignored := false;
    if within > 0 || left < g.ClusterSize() {
      ignored, r := ReadCluster(g, disk, c, r);
    }
    seen := r;
    if old(disk.Reliable()) {
      AroundRead(seen, whole, within, |chunk|);
    }
    r := Patched(r, within, chunk);
    ghost var done;
    ok, done := WriteCluster(g, disk, c, r);
    PatchedCluster(seen, whole, within, chunk);
    SliceOfSlice(r, 0, g.ClusterSize(), within, within + |chunk|);
    assert r[0..g.ClusterSize()] == r[..g.ClusterSize()];
  }

  /** The data loop of fat_node_write over the chain s.  Whatever the disk does, the bytes
      that were counted are in the chain. */
  method WriteChain(g: Geometry, disk: Disk, fat: ClusterTable, first: u16, offset: nat, data: seq<byte>,
                    ghost s: seq<u16>)
    returns (written: nat)
    requires OnDisk(disk.sectors, g) && fat.Valid() && fat.n == g.totalClusters + 2
    requires IsChain(fat.T(), fat.n, s) && s[0] == first
    modifies disk
    ensures written <= Moved(|data|, offset, Span(|s|, g.ClusterSize()))
    ensures OnlyChain(old(disk.sectors), disk.sectors, g, s)
    ensures written > 0 ==> Stored(disk.sectors, g, s, offset, data[..written])
    ensures old(disk.Reliable()) ==>
              && disk.Reliable() && written == Moved(|data|, offset, Span(|s|, g.ClusterSize()))
              && FileBytes(disk.sectors, g, s) == Overwrite(FileBytes(old(disk.sectors), g, s), offset, data)
  {
    hide FileBytes, ClusterBytes, Splice, IsWritten, Span, Stored, Around;
    var clusterSize := g.ClusterSize();
    var cluster: u16 := SkipClusters(fat, first, SkipCount(offset, clusterSize), s);
    var within: nat := StartWithin(offset, clusterSize);
    var buf := StaticBuffer();
    written := 0;
    ghost var i: nat := SkipCount(offset, clusterSize);
    ghost var reliable := disk.Reliable();
    WritingStart(disk.sectors, g, s, offset, data, cluster, reliable);
    while written < |data| && !Stops(cluster)
      invariant |buf| == BUFFER_SIZE
      invariant Writing(old(disk.sectors), disk.sectors, g, s, offset, data, written, i, within, cluster, reliable)
      invariant reliable ==> disk.Reliable()
      decreases |s| - i
    {
      ghost var before := disk.sectors;
      var k := Chunk(clusterSize, within, |data| - written);
      var ok;
      ghost var seen;
      ok, buf, seen := PatchCluster(g, disk, cluster, within, data[written..written + k], |data| - written, buf);
      if !ok {
        WritingFailed(old(disk.sectors), before, disk.sectors, g, s, offset, data, written, i, within, cluster);
        return;
      }
      var next := fat.GetNext(cluster);
      WritingStep(old(disk.sectors), before, disk.sectors, g, s, offset, data, written, i, within, cluster, next,
                  reliable);
      written, within, cluster, i := written + k, 0, next, i + 1;
    }
    WritingEnd(old(disk.sectors), disk.sectors, g, s, offset, data, written, i, within, cluster, reliable);
  }

  /** One byte written at offset 1 of a cluster while the read fails, and nothing else: the
      write succeeds, and the byte in front of it is the one left over in the static buffer. */
  method LostByteExample(g: Geometry, disk: Disk, c: u16, x: byte, buf: seq<byte>) returns (ok: bool)
    requires OnDisk(disk.sectors, g) && g.IsCluster(c) && |buf| == BUFFER_SIZE && disk.FailsOnce()
    requires buf[0] != ClusterBytes(disk.sectors, g, c)[0]
    modifies disk
    ensures ok && OnDisk(disk.sectors, g) && ClusterBytes(disk.sectors, g, c)[1] == x
    ensures ClusterBytes(disk.sectors, g, c) != Splice(ClusterBytes(old(disk.sectors), g, c), 1, [x])
  {
    hide ClusterBytes, Splice;
    ghost var whole := ClusterBytes(disk.sectors, g, c);
    var r;
    ghost var seen;
    ok, r, seen := PatchCluster(g, disk, c, 1, [x], 1, buf);
    assert seen[..1][0] == seen[0] && whole[..1][0] == whole[0];
    assert ClusterBytes(disk.sectors, g, c)[1..2][0] == x;
  }
}
