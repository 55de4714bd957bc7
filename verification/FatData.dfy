/**
 The disk under the FAT driver, cluster I/O, and the byte sequence that a cluster
 chain stands for.
 */
module FatData {
  import opened FatTable
  import opened FatGeometry

  type byte = x: int | 0 <= x < 256
  type Sector = s: seq<byte> | |s| == 512 witness seq(512, i => 0)

  // The k sectors from lba on, as one byte sequence.
  ghost function SectorRun(disk: seq<Sector>, lba: nat, k: nat): (r: seq<byte>)
    requires lba + k <= |disk|
    ensures |r| == 512 * k
  {
    if k == 0 then [] else SectorRun(disk, lba, k - 1) + disk[lba + k - 1]
  }

  ghost predicate OnDisk(disk: seq<Sector>, g: Geometry) {
    g.Valid() && g.Fits(|disk|)
  }

  ghost function ClusterBytes(disk: seq<Sector>, g: Geometry, c: u16): (r: seq<byte>)
    requires OnDisk(disk, g) && g.IsCluster(c)
    ensures |r| == g.ClusterSize()
  {
    ClusterRange(g, c);
    SectorRun(disk, g.Lba(c), g.sectorsPerCluster)
  }

  ghost predicate AllClusters(g: Geometry, s: seq<u16>) {
    forall i :: 0 <= i < |s| ==> g.IsCluster(s[i])
  }

  // The bytes a chain holds, cluster after cluster.
  ghost function FileBytes(disk: seq<Sector>, g: Geometry, s: seq<u16>): (r: seq<byte>)
    requires OnDisk(disk, g) && AllClusters(g, s)
    ensures |r| == Span(|s|, g.ClusterSize())
  {
    if s == [] then []
    else
      FileBytes(disk, g, s[..|s| - 1]) + ClusterBytes(disk, g, s[|s| - 1])
  }

  // ---------------------------------------------------------------- frames

  // Sector l belongs to cluster c.
  predicate InCluster(g: Geometry, c: u16, l: int) {
    g.Lba(c) <= l < g.Lba(c) + g.sectorsPerCluster
  }

  ghost predicate SameCluster(a: seq<Sector>, b: seq<Sector>, g: Geometry, c: u16)
    requires |a| == |b|
  {
    forall l :: 0 <= l < |a| && InCluster(g, c, l) ==> a[l] == b[l]
  }

  // b differs from a at most in cluster c.
  ghost predicate OnlyCluster(a: seq<Sector>, b: seq<Sector>, g: Geometry, c: u16) {
    && |a| == |b|
    && forall l :: 0 <= l < |a| && !InCluster(g, c, l) ==> b[l] == a[l]
  }

  lemma {:induction false} SectorRunFrame(a: seq<Sector>, b: seq<Sector>, lba: nat, k: nat)
    requires lba + k <= |a| == |b|
    requires forall l :: lba <= l < lba + k ==> a[l] == b[l]
    ensures SectorRun(a, lba, k) == SectorRun(b, lba, k)
  {
    if k > 0 {
      SectorRunFrame(a, b, lba, k - 1);
    }
  }

  lemma ClusterFrame(a: seq<Sector>, b: seq<Sector>, g: Geometry, c: u16)
    requires OnDisk(a, g) && g.IsCluster(c) && |a| == |b| && SameCluster(a, b, g, c)
    ensures ClusterBytes(a, g, c) == ClusterBytes(b, g, c)
  {
    ClusterRange(g, c);
    SectorRunFrame(a, b, g.Lba(c), g.sectorsPerCluster);
  }

  lemma {:induction false} FileFrame(a: seq<Sector>, b: seq<Sector>, g: Geometry, s: seq<u16>)
    requires OnDisk(a, g) && AllClusters(g, s) && |a| == |b|
    requires forall i :: 0 <= i < |s| ==> SameCluster(a, b, g, s[i])
    ensures FileBytes(a, g, s) == FileBytes(b, g, s)
  {
    if s != [] {
      FileFrame(a, b, g, s[..|s| - 1]);
      ClusterFrame(a, b, g, s[|s| - 1]);
    }
  }

  // A change confined to one cluster is invisible in every other cluster.
  lemma OtherCluster(a: seq<Sector>, b: seq<Sector>, g: Geometry, c: u16, d: u16)
    requires OnDisk(a, g) && g.IsCluster(c) && g.IsCluster(d) && c != d
    requires OnlyCluster(a, b, g, c)
    ensures SameCluster(a, b, g, d)
  {
    forall l | 0 <= l < |a| && InCluster(g, d, l)
      ensures !InCluster(g, c, l)
    {
      if InCluster(g, c, l) {
        ClustersDisjoint(g, c, l - g.Lba(c), d, l - g.Lba(d));
      }
    }
  }

  // ---------------------------------------------------------------- splicing

  // a with the bytes from `off` on replaced by x.
  function Splice(a: seq<byte>, off: nat, x: seq<byte>): (r: seq<byte>)
    requires off + |x| <= |a|
    ensures |r| == |a|
  {
    a[..off] + x + a[off + |x|..]
  }

  lemma {:induction false} FileBytesSplit(disk: seq<Sector>, g: Geometry, s: seq<u16>, i: nat)
    requires OnDisk(disk, g) && AllClusters(g, s) && i < |s|
    ensures Span(i, g.ClusterSize()) + g.ClusterSize() <= Span(|s|, g.ClusterSize())
    ensures var lo := Span(i, g.ClusterSize());
            FileBytes(disk, g, s)[lo..lo + g.ClusterSize()] == ClusterBytes(disk, g, s[i])
  {
    var size := g.ClusterSize();
    var init := s[..|s| - 1];
    if i < |s| - 1 {
      FileBytesSplit(disk, g, init, i);
      var lo := Span(i, size);
      assert FileBytes(disk, g, s)[lo..lo + size] == FileBytes(disk, g, init)[lo..lo + size];
    }
  }

  /** Rewriting cluster i of a chain splices the chain's bytes at that cluster. */
  lemma {:induction false} FileBytesUpdate(a: seq<Sector>, b: seq<Sector>, g: Geometry, s: seq<u16>, i: nat)
    requires OnDisk(a, g) && AllClusters(g, s) && Distinct(s) && i < |s|
    requires OnlyCluster(a, b, g, s[i])
    ensures Span(i, g.ClusterSize()) + g.ClusterSize() <= Span(|s|, g.ClusterSize())
    ensures FileBytes(b, g, s) == Splice(FileBytes(a, g, s), Span(i, g.ClusterSize()), ClusterBytes(b, g, s[i]))
  {
    var size := g.ClusterSize();
    var init, last := s[..|s| - 1], s[|s| - 1];
    if i == |s| - 1 {
      forall j | 0 <= j < |init|
        ensures SameCluster(a, b, g, init[j])
      {
        OtherCluster(a, b, g, s[i], init[j]);
      }
      FileFrame(a, b, g, init);
    } else {
      FileBytesUpdate(a, b, g, init, i);
      OtherCluster(a, b, g, s[i], last);
      ClusterFrame(a, b, g, last);
      SpliceLeft(FileBytes(a, g, init), ClusterBytes(a, g, last), Span(i, size), ClusterBytes(b, g, s[i]));
    }
  }

  lemma SpliceLeft(a: seq<byte>, b: seq<byte>, off: nat, x: seq<byte>)
    requires off + |x| <= |a|
    ensures Splice(a + b, off, x) == Splice(a, off, x) + b
  {
  }

  // Splicing in a block into which a chunk was spliced splices the chunk.
  lemma SpliceNested(a: seq<byte>, lo: nat, block: seq<byte>, off: nat, x: seq<byte>)
    requires lo + |block| <= |a| && block == a[lo..lo + |block|] && off + |x| <= |block|
    ensures Splice(a, lo, Splice(block, off, x)) == Splice(a, lo + off, x)
  {
    var p, q := Splice(a, lo, Splice(block, off, x)), Splice(a, lo + off, x);
    assert |p| == |q|;
    assert forall j :: 0 <= j < |p| ==> p[j] == q[j];
  }

  // Two adjacent chunks splice as one.
  lemma SpliceAppend(a: seq<byte>, off: nat, x: seq<byte>, y: seq<byte>)
    requires off + |x| + |y| <= |a|
    ensures Splice(Splice(a, off, x), off + |x|, y) == Splice(a, off, x + y)
  {
  }

  // ---------------------------------------------------------------- the device

  /** The ATA drive: a sector array whose accesses may fail.  `fails` is an arbitrary
      fault schedule over the sequence of accesses; a failed write leaves the sector. */
  class Disk {
    const fails: nat -> bool
    var clock: nat
    var sectors: seq<Sector>

    // No access fails from now on.
    ghost predicate Reliable()
      reads this
    {
      forall k :: clock <= k ==> !fails(k)
    }

    // The next access fails, and none after it.
    ghost predicate FailsOnce()
      reads this
    {
      fails(clock) && forall k :: clock < k ==> !fails(k)
    }

    constructor (image: seq<Sector>, faults: nat -> bool)
      ensures sectors == image && fails == faults && clock == 0
    {
      sectors, fails, clock := image, faults, 0;
    }

    method Read(lba: nat, buf: seq<byte>, at: nat) returns (ok: bool, r: seq<byte>)
      requires at + 512 <= |buf|
      modifies this`clock
      ensures |r| == |buf|
      ensures ok ==> lba < |sectors| && r == Splice(buf, at, sectors[lba])
      ensures !ok ==> r == buf
      ensures old(Reliable()) ==> Reliable() && (lba < |sectors| ==> ok)
      ensures old(FailsOnce()) ==> Reliable() && !ok
    {
      ok := lba < |sectors| && !fails(clock);
      r := if ok then Splice(buf, at, sectors[lba]) else buf;
      clock := clock + 1;
    }

    method Write(lba: nat, s: Sector) returns (ok: bool)
      modifies this
      ensures |sectors| == |old(sectors)|
      ensures ok ==> lba < |sectors| && sectors == old(sectors)[lba := s]
      ensures !ok ==> sectors == old(sectors)
      ensures old(Reliable()) ==> Reliable() && (lba < |sectors| ==> ok)
    {
      ok := lba < |sectors| && !fails(clock);
      if ok {
        sectors := sectors[lba := s];
      }
      clock := clock + 1;
    }
  }
}
