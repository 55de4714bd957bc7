/**
 The FAT16 volume layout: what fat_mount (fs/fat.c) derives from the boot sector,
 and what the formatter (tools/mkfs.fat.c) derives from the size of the disk image.
 */
module FatGeometry {

  // count * size, by repeated addition: the length of `count` pieces of `size` each.
  function Span(count: nat, size: nat): (r: nat) {
    if count == 0 then 0 else Span(count - 1, size) + size
  }

  lemma {:induction false} SpanIsProduct(count: nat, size: nat)
    ensures Span(count, size) == count * size
  {
    if count > 0 {
      SpanIsProduct(count - 1, size);
      assert count * size == (count - 1) * size + size;
    }
  }

  lemma {:induction false} SpanMono(a: nat, b: nat, size: nat)
    requires a <= b
    ensures Span(a, size) <= Span(b, size)
    ensures a < b ==> Span(a, size) + size <= Span(b, size)
    decreases b
  {
    if a < b {
      SpanMono(a, b - 1, size);
    }
  }

  // The computed part of fat_fs_t.
  datatype Geometry = Geometry(
    fatStart: nat,
    rootStart: nat,
    dataStart: nat,
    sectorsPerFat: nat,
    numFats: nat,
    rootEntries: nat,
    sectorsPerCluster: nat,
    totalClusters: nat)
  {
    function RootSectors(): nat {
      (rootEntries * 32 + 511) / 512
    }

    // What the driver's table indexing and its 2048-byte buffers need.
    predicate Valid() {
      && 1 <= sectorsPerCluster <= 4
      && 1 <= numFats
      && rootStart == fatStart + Span(numFats, sectorsPerFat)
      && dataStart == rootStart + RootSectors()
      && totalClusters + 2 <= 256 * sectorsPerFat
      && totalClusters + 2 < 0xFFF8
    }

    function ClusterSize(): nat {
      sectorsPerCluster * 512
    }

    function Lba(c: nat): nat {
      if c < 2 then 0 else dataStart + Span(c - 2, sectorsPerCluster)
    }

    predicate IsCluster(c: nat) {
      2 <= c < totalClusters + 2
    }

    // The volume's sectors all exist on a disk of `count` sectors.
    predicate Fits(count: nat) {
      dataStart + Span(totalClusters, sectorsPerCluster) <= count
    }
  }

  // A cluster's sectors lie inside the volume, behind the root directory.
  lemma ClusterRange(g: Geometry, c: nat)
    requires g.Valid() && g.IsCluster(c)
    ensures g.dataStart <= g.Lba(c)
    ensures g.Lba(c) + g.sectorsPerCluster <= g.dataStart + Span(g.totalClusters, g.sectorsPerCluster)
  {
    SpanMono(c - 2, g.totalClusters, g.sectorsPerCluster);
  }

  // Cluster 2 opens the data area, and each cluster follows the one before.
  lemma ClustersAdjoin(g: Geometry, c: nat)
    requires c >= 2
    ensures g.Lba(2) == g.dataStart && g.Lba(c + 1) == g.Lba(c) + g.sectorsPerCluster
    ensures g.Lba(c) == g.dataStart + (c - 2) * g.sectorsPerCluster
  {
    SpanIsProduct(c - 2, g.sectorsPerCluster);
  }

  // Distinct clusters share no sector.
  lemma ClustersDisjoint(g: Geometry, c: nat, i: nat, d: nat, j: nat)
    requires g.Valid() && g.IsCluster(c) && g.IsCluster(d)
    requires i < g.sectorsPerCluster && j < g.sectorsPerCluster
    requires c != d
    ensures g.Lba(c) + i != g.Lba(d) + j
  {
    if c < d {
      SpanMono(c - 2, d - 2, g.sectorsPerCluster);
    } else {
      SpanMono(d - 2, c - 2, g.sectorsPerCluster);
    }
  }

  // ---------------------------------------------------------------- formatter and mount

  const TWO_16: nat := 0x1_0000
  const TWO_32: nat := 0x1_0000_0000

  // x in unsigned arithmetic of the given modulus.
  function Wrap(x: int, modulus: nat): (r: nat)
    requires modulus > 0
    ensures r < modulus
    ensures 0 <= x < modulus ==> r == x
  {
    x % modulus
  }

  // The boot sector fields that the layout depends on.
  datatype Boot = Boot(
    sectorsPerCluster: nat,
    reservedSectors: nat,
    numFats: nat,
    rootEntries: nat,
    totalSectors16: nat,
    sectorsPerFat: nat,
    totalSectors32: nat)

  // What the formatter computes from the number of sectors, in 32-bit arithmetic, with
  // 4-sector clusters, 1 reserved sector, 2 FATs and 512 root entries.
  datatype Layout = Layout(totalSectors: nat, tmp1: nat, sectorsPerFat: nat, dataStart: nat, totalClusters: nat)

  const TMP2: nat := 256 * 4 + 2
  const ROOT_SECTORS: nat := (512 * 32 + 512 - 1) / 512

  function FormatLayout(diskSize: nat): (r: Layout) {
    var total := Wrap(diskSize / 512, TWO_32);
    var tmp1 := Wrap(total - (1 + ROOT_SECTORS), TWO_32);
    var perFat := Wrap(Wrap(tmp1 + TMP2 - 1, TWO_32) / TMP2, TWO_16);
    var dataStart := 1 + 2 * perFat + ROOT_SECTORS;
    Layout(total, tmp1, perFat, dataStart, Wrap(total - dataStart, TWO_32) / 4)
  }

  // The formatter's own test for a FAT16 cluster count.
  predicate Accepted(l: Layout) {
    4085 <= l.totalClusters < 65525
  }

  function BootSector(l: Layout): Boot {
    Boot(4, 1, 2, 512,
         if l.totalSectors < 65536 then l.totalSectors else 0,
         l.sectorsPerFat,
         if l.totalSectors >= 65536 then l.totalSectors else 0)
  }

  // The layout part of fat_mount, for a partition at sector 0.
  function MountLayout(b: Boot): (r: Geometry)
    requires b.sectorsPerCluster > 0
  {
    var total := if b.totalSectors16 != 0 then b.totalSectors16 else b.totalSectors32;
    var fatStart := b.reservedSectors;
    var rootStart := fatStart + b.numFats * b.sectorsPerFat;
    var dataStart := rootStart + (b.rootEntries * 32 + 511) / 512;
    Geometry(fatStart, rootStart, dataStart, b.sectorsPerFat, b.numFats, b.rootEntries, b.sectorsPerCluster,
             Wrap(total - dataStart, TWO_32) / b.sectorsPerCluster)
  }

  /** For an accepted image nothing that the formatter computes from the sector count wrapped
      around, in 32 or 16 bits; the sector count itself is that of the disk if and only if
      the disk has fewer than 2^32 sectors. */
  lemma AcceptedIsExact(diskSize: nat)
    requires Accepted(FormatLayout(diskSize))
    ensures var l := FormatLayout(diskSize);
            && l.tmp1 == l.totalSectors - 33
            && 1026 * (l.sectorsPerFat - 1) < l.tmp1 <= 1026 * l.sectorsPerFat
            && l.dataStart == 33 + 2 * l.sectorsPerFat <= l.totalSectors
            && l.totalClusters == (l.totalSectors - l.dataStart) / 4
            && (l.totalSectors == diskSize / 512 <==> diskSize / 512 < TWO_32)
  {
    var l := FormatLayout(diskSize);
    assert ROOT_SECTORS == 32 && TMP2 == 1026;
    DataFits(l.totalSectors, l.dataStart);
    FatRounded(l.totalSectors);
  }

  /** A disk of 2^32 + 20000 sectors is accepted as one of 20000. */
  lemma HugeDiskExample()
    ensures var l := FormatLayout(512 * (TWO_32 + 20000));
            Accepted(l) && l.totalSectors == 20000 && l.totalClusters == 4981
  {
    var l := FormatLayout(512 * (TWO_32 + 20000));
    assert 512 * (TWO_32 + 20000) / 512 == TWO_32 + 20000;
    assert l.totalSectors == 20000;
    assert l.tmp1 == 19967 && l.sectorsPerFat == 20;
  }

  // Too few sectors for the metadata would wrap around to too many clusters.
  lemma DataFits(total: nat, dataStart: nat)
    requires total < TWO_32 && dataStart < 0x10_0000 && Wrap(total - dataStart, TWO_32) / 4 < 65525
    ensures dataStart <= total <= dataStart + 4 * 65525
  {
  }

  // The FAT size is the rounded-up quotient.
  lemma FatRounded(total: nat)
    requires 33 <= total <= 0x10_0000
    ensures var tmp1 := Wrap(total - 33, TWO_32);
            var perFat := Wrap(Wrap(tmp1 + 1025, TWO_32) / 1026, TWO_16);
            tmp1 == total - 33 && 1026 * (perFat - 1) < tmp1 <= 1026 * perFat
  {
  }

  /** The formatter and the driver compute the same layout from the same image. */
  lemma MountAgreesWithFormat(diskSize: nat)
    requires Accepted(FormatLayout(diskSize))
    ensures var l := FormatLayout(diskSize);
            var m := MountLayout(BootSector(l));
            && m.fatStart == 1 && m.sectorsPerFat == l.sectorsPerFat && m.rootStart == 1 + 2 * l.sectorsPerFat
            && m.RootSectors() == ROOT_SECTORS && m.dataStart == l.dataStart
            && m.totalClusters == l.totalClusters && m.Fits(l.totalSectors)
  {
    AcceptedIsExact(diskSize);
    var l := FormatLayout(diskSize);
    SpanIsProduct(l.totalClusters, 4);
  }

  /** The FAT always has room for as many entries as there are clusters. */
  lemma FatHoldsClusters(diskSize: nat)
    requires Accepted(FormatLayout(diskSize))
    ensures var l := FormatLayout(diskSize);
            l.totalClusters <= 256 * l.sectorsPerFat
  {
    AcceptedIsExact(diskSize);
  }

  /** The driver indexes entries 2 .. total_clusters + 1.  They exist, and the mounted
      geometry is valid, exactly when the rounding of the FAT size left at least 5. */
  lemma MountValidIff(diskSize: nat)
    requires Accepted(FormatLayout(diskSize))
    ensures var l := FormatLayout(diskSize);
            MountLayout(BootSector(l)).Valid() <==> TMP2 * l.sectorsPerFat - l.tmp1 >= 5
  {
    AcceptedIsExact(diskSize);
    MountAgreesWithFormat(diskSize);
    var l := FormatLayout(diskSize);
    var m := MountLayout(BootSector(l));
    SpanIsProduct(2, l.sectorsPerFat);
    assert m.rootStart == m.fatStart + Span(m.numFats, m.sectorsPerFat);
    assert l.totalClusters + 2 <= 256 * l.sectorsPerFat <==> 1026 * l.sectorsPerFat - l.tmp1 >= 5;
  }

  /** An image of 17475 sectors is accepted and mounts with a table two entries short. */
  lemma MountInvalidExample()
    ensures var l := FormatLayout(17475 * 512);
            Accepted(l) && l.totalClusters == 4352 == 256 * l.sectorsPerFat && !MountLayout(BootSector(l)).Valid()
  {
    var l := FormatLayout(17475 * 512);
    assert l.totalSectors == 17475 && l.tmp1 == 17442 && l.sectorsPerFat == 17;
  }

  /** A disk of 32 MiB: 64 sectors for each FAT, the data area from sector 161 on, and 16343
      clusters. */
  lemma FormatExample()
    ensures FormatLayout(0x200_0000) == Layout(65536, 65503, 64, 161, 16343)
    ensures var g := MountLayout(BootSector(FormatLayout(0x200_0000)));
            g == Geometry(1, 129, 161, 64, 2, 512, 4, 16343) && g.Lba(16344) == 161 + 16342 * 4
  {
    var l := FormatLayout(0x200_0000);
    assert l == Layout(65536, 65503, 64, 161, 16343);
    ClustersAdjoin(MountLayout(BootSector(l)), 16344);
  }
}
