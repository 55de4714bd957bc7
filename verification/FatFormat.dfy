/**
 From the formatter to the driver: the image that tools/mkfs.fat.c writes mounts as an
 empty volume that satisfies the driver's invariant.
 */
module FatFormat {
  import opened FatTable
  import opened FatGeometry
  import opened FatData
  import opened FatDir
  import opened FatFs
  import opened FatState
  import opened FatTheorems
  import opened FatVolume

  const CLEARED_SECTORS: nat := 1000

  // The formatter's table: the two reserved entries, and everything free.
  function FreshTable(perFat: nat): (r: seq<u16>)
    ensures |r| == 256 * perFat
    ensures forall c :: 2 <= c < |r| ==> r[c] == FREE
  {
    seq(256 * perFat, c => if c == 0 then 0xFFF8 else if c == 1 then 0xFFFF else FREE)
  }

  function ZeroSector(): (r: Sector)
    ensures forall i :: 0 <= i < 512 ==> r[i] == 0
  {
    seq(512, _ => 0)
  }

  // Sector j of a byte sequence.
  function Piece(b: seq<byte>, j: nat): Sector
    requires 512 * j + 512 <= |b|
  {
    b[512 * j..512 * j + 512]
  }

  // Sector j of the encoded table.
  function TableSector(perFat: nat, j: nat): Sector
    requires j < perFat
  {
    Piece(Encode(FreshTable(perFat)), j)
  }

  // Sector i of the image: boot sector, two FATs, cleared root directory, and the data
  // area, of which the first 1000 sectors are cleared.
  function ImageSector(l: Layout, boot: Sector, before: Sector, i: nat): Sector {
    if i == 0 then boot
    else if i < 1 + l.sectorsPerFat then TableSector(l.sectorsPerFat, i - 1)
    else if i < 1 + 2 * l.sectorsPerFat then TableSector(l.sectorsPerFat, i - 1 - l.sectorsPerFat)
    else if i < l.dataStart + CLEARED_SECTORS then ZeroSector()
    else before
  }

  function Image(l: Layout, boot: Sector, before: seq<Sector>): (r: seq<Sector>)
    ensures |r| == |before| && forall i :: 0 <= i < |before| ==> r[i] == ImageSector(l, boot, before[i], i)
  {
    seq(|before|, i requires 0 <= i < |before| => ImageSector(l, boot, before[i], i))
  }

  // A run of sectors that are the pieces of b is b.
  lemma {:induction false} RunOfPieces(disk: seq<Sector>, lba: nat, k: nat, b: seq<byte>)
    requires lba + k <= |disk| && 512 * k <= |b|
    requires forall i :: lba <= i < lba + k ==> disk[i] == Piece(b, i - lba)
    ensures SectorRun(disk, lba, k) == b[..512 * k]
  {
    if k > 0 {
      RunOfPieces(disk, lba, k - 1, b);
      assert b[..512 * k] == b[..512 * (k - 1)] + Piece(b, k - 1);
    }
  }

  lemma {:induction false} ZeroRun(disk: seq<Sector>, lba: nat, k: nat)
    requires lba + k <= |disk| && forall i :: lba <= i < lba + k ==> disk[i] == ZeroSector()
    ensures forall i :: 0 <= i < 512 * k ==> SectorRun(disk, lba, k)[i] == 0
  {
    if k > 0 {
      ZeroRun(disk, lba, k - 1);
    }
  }

  // Both FATs of the image hold the formatter's table.
  lemma ImageFats(l: Layout, g: Geometry, boot: Sector, before: seq<Sector>, i: nat)
    requires OnDisk(before, g) && g.fatStart == 1 && g.numFats == 2 && g.sectorsPerFat == l.sectorsPerFat && i < 2
    ensures FatCopy(Image(l, boot, before), g, i) == Encode(FreshTable(l.sectorsPerFat))
  {
    hide Encode, FreshTable, Piece, SectorRun, Span;
    var disk, n := Image(l, boot, before), l.sectorsPerFat;
    var b := Encode(FreshTable(n));
    FatPlace(g, i);
    var lba := 1 + (if i == 0 then 0 else n);
    RootBehind(g, |before|);
    assert forall k :: lba <= k < lba + n ==> disk[k] == TableSector(n, k - lba);
    RunOfPieces(disk, lba, n, b);
    assert b[..512 * n] == b;
  }

  lemma RootBehind(g: Geometry, count: nat)
    requires g.Valid() && g.Fits(count)
    ensures g.rootStart + g.RootSectors() <= count
  {
  }

  lemma FatPlace(g: Geometry, i: nat)
    requires g.Valid() && g.fatStart == 1 && g.numFats == 2 && i < 2
    ensures Span(i, g.sectorsPerFat) == (if i == 0 then 0 else g.sectorsPerFat)
    ensures g.rootStart == 1 + 2 * g.sectorsPerFat
  {
    assert Span(1, g.sectorsPerFat) == Span(0, g.sectorsPerFat) + g.sectorsPerFat;
    assert Span(2, g.sectorsPerFat) == Span(1, g.sectorsPerFat) + g.sectorsPerFat;
  }

  // The root directory of the image has only vacant slots.
  lemma ImageRoot(l: Layout, g: Geometry, boot: Sector, before: seq<Sector>)
    requires OnDisk(before, g) && g.fatStart == 1 && g.numFats == 2 && g.sectorsPerFat == l.sectorsPerFat
             && g.dataStart == l.dataStart
    ensures var v := Slots(RootBytes(Image(l, boot, before), g));
            forall k :: 0 <= k < |v| ==> v[k][0] == 0
  {
    hide TableSector, Span;
    var disk := Image(l, boot, before);
    FatPlace(g, 0);
    RootBehind(g, |before|);
    assert forall i :: g.rootStart <= i < g.rootStart + g.RootSectors() ==> disk[i] == ZeroSector();
    ZeroRun(disk, g.rootStart, g.RootSectors());
  }

  // n slots, none of them used yet.
  ghost predicate Blank(v: seq<Slot>, n: nat) {
    |v| == n && forall k :: 0 <= k < |v| ==> v[k][0] == 0
  }

  // A volume without chains whose root slots are all vacant.
  lemma EmptyConsistent(disk: seq<Sector>, g: Geometry)
    requires OnDisk(disk, g) && FatCopy(disk, g, 0) == Encode(FreshTable(g.sectorsPerFat))
    requires var v := Slots(RootBytes(disk, g)); forall k :: 0 <= k < |v| ==> v[k][0] == 0
    ensures var s := State(disk, FreshTable(g.sectorsPerFat), false, map[], {});
            && Consistent(s, g) && AllUnique(s, g) && TreeOf(s, g) == map[0 := Slots(RootBytes(disk, g))]
            && forall x :: FileAt(s, g, 0, x) == None
  {
    hide FatCopy, Encode, FreshTable, Span, SectorRun, RootBytes, Slots, FirstMatch;
    var s := State(disk, FreshTable(g.sectorsPerFat), false, map[], {});
    assert Shaped(s, g);
    var v := TreeOf(s, g)[0];
    assert TreeOf(s, g) == map[0 := v];
    assert forall k :: 0 <= k < |v| ==> v[k][0] == 0;
    assert forall d, k: nat :: !Owns(TreeOf(s, g), d, k);
    assert Consistent(s, g);
    forall x
      ensures FileAt(s, g, 0, x) == None
    {
      FirstMatchIs(Named(x), v, |v|);
    }
  }

  // ---------------------------------------------------------------- the boot sector

  // Fields that fit their places in the boot sector.
  predicate Fields(b: Boot) {
    && b.sectorsPerCluster < 256 && b.reservedSectors < TWO_16 && b.numFats < 256 && b.rootEntries < TWO_16
    && b.totalSectors16 < TWO_16 && b.sectorsPerFat < TWO_16 && b.totalSectors32 < TWO_32
  }

  // The boot sector that the formatter writes; `rest` gives the bytes that the driver does
  // not read (jump, labels, serial number, boot code).
  function BootBytes(b: Boot, rest: Sector): (r: Sector)
    requires Fields(b)
  {
    rest[..11] + Le16(512) + [b.sectorsPerCluster] + Le16(b.reservedSectors) + [b.numFats] + Le16(b.rootEntries)
    + Le16(b.totalSectors16) + rest[21..22] + Le16(b.sectorsPerFat) + rest[24..32] + Le32(b.totalSectors32)
    + rest[36..510] + [0x55, 0xAA]
  }

  function At16(x: Sector, i: nat): (r: nat)
    requires i + 2 <= 512
    ensures r < TWO_16
  {
    x[i] as int + 0x100 * x[i + 1] as int
  }

  // The signature test and the fields that fat_mount takes from the boot sector.
  predicate Signed(x: Sector) {
    At16(x, 510) == 0xAA55
  }

  function ReadBoot(x: Sector): (r: Boot) {
    Boot(x[13], At16(x, 14), x[16], At16(x, 17), At16(x, 19), At16(x, 22),
         x[32] as int + 0x100 * x[33] as int + 0x1_0000 * x[34] as int + 0x100_0000 * x[35] as int)
  }

  // Where the FAT specification puts the fields of the BIOS parameter block.
  ghost predicate Standard(x: Sector, b: Boot) {
    && x[11] == 0 && x[12] == 2 && x[510] == 0x55 && x[511] == 0xAA
    && x[13] == b.sectorsPerCluster && x[16] == b.numFats
    && x[14] as int + 256 * x[15] as int == b.reservedSectors
    && x[17] as int + 256 * x[18] as int == b.rootEntries
    && x[19] as int + 256 * x[20] as int == b.totalSectors16
    && x[22] as int + 256 * x[23] as int == b.sectorsPerFat
    && x[32] as int + 0x100 * x[33] as int + 0x1_0000 * x[34] as int + 0x100_0000 * x[35] as int == b.totalSectors32
  }

  /** The boot sector is laid out as the specification says, and the driver takes it so. */
  lemma BootIsStandard(b: Boot, rest: Sector)
    requires Fields(b)
    ensures Standard(BootBytes(b, rest), b)
    ensures forall x: Sector :: Standard(x, b) ==> Signed(x) && ReadBoot(x) == b
  {
    var x := BootBytes(b, rest);
    assert x[11..13] == Le16(512) && x[11] == 0 && x[12] == 2;
    BootRoundTrip(b, rest);
    assert x[510] == 0x55 && x[511] == 0xAA;
  }

  /** The driver reads back the fields that the formatter wrote. */
  lemma BootRoundTrip(b: Boot, rest: Sector)
    requires Fields(b)
    ensures Signed(BootBytes(b, rest)) && ReadBoot(BootBytes(b, rest)) == b
  {
    var x := BootBytes(b, rest);
    assert forall i :: 32 <= i < 36 ==> x[i] == Le32(b.totalSectors32)[i - 32];
    Le32Value(b.totalSectors32);
    assert x[14..16] == Le16(b.reservedSectors) && x[17..19] == Le16(b.rootEntries);
    assert x[19..21] == Le16(b.totalSectors16) && x[22..24] == Le16(b.sectorsPerFat);
    assert x[13] == b.sectorsPerCluster && x[16] == b.numFats && x[510] == 0x55 && x[511] == 0xAA;
  }

  lemma LayoutFields(diskSize: nat)
    ensures Fields(BootSector(FormatLayout(diskSize)))
  {
  }

  // The image that the formatter leaves of a disk.
  function FormattedImage(diskSize: nat, rest: Sector, before: seq<Sector>): seq<Sector> {
    LayoutFields(diskSize);
    Image(FormatLayout(diskSize), BootBytes(BootSector(FormatLayout(diskSize)), rest), before)
  }

  // Large enough for a FAT16 volume, with room in the FAT for the entries the driver uses.
  predicate GoodSize(diskSize: nat) {
    var l := FormatLayout(diskSize);
    Accepted(l) && TMP2 * l.sectorsPerFat - l.tmp1 >= 5
  }

  // The volume as mounted: the formatter's table, no chains.
  ghost function EmptyVolume(diskSize: nat, rest: Sector, before: seq<Sector>): State {
    State(FormattedImage(diskSize, rest, before), FreshTable(FormatLayout(diskSize).sectorsPerFat), false, map[], {})
  }

  function MountedGeometry(diskSize: nat): Geometry {
    MountLayout(BootSector(FormatLayout(diskSize)))
  }

  /** Whatever was on the disk: an accepted image whose FAT is large enough mounts, with the
      geometry the driver computes from the boot sector it reads, as a consistent volume.
      Every cluster is free, no name stands for a file, and both FATs agree with the table. */
  lemma FormattedMounts(diskSize: nat, rest: Sector, before: seq<Sector>)
    requires GoodSize(diskSize) && |before| == FormatLayout(diskSize).totalSectors
    ensures var g, s := MountedGeometry(diskSize), EmptyVolume(diskSize, rest, before);
            && |s.disk| > 0 && Signed(s.disk[0]) && ReadBoot(s.disk[0]).sectorsPerCluster > 0
            && MountLayout(ReadBoot(s.disk[0])) == g
            && Consistent(s, g) && AllUnique(s, g) && TreeOf(s, g).Keys == {0} && Blank(TreeOf(s, g)[0], 512)
            && (forall x :: FileAt(s, g, 0, x) == None)
            && (forall i :: 0 <= i < 2 ==> FatCopy(s.disk, g, i) == Encode(s.t))
            && forall c: u16 :: 2 <= c < Limit(g) ==> c in FreeSet(s.t, Limit(g))
  {
    hide FormatLayout, Accepted, FatCopy, Encode, Consistent, AllUnique, FileAt, TreeOf, Span, FreshTable, FreeSet;
    hide BootBytes, ReadBoot, Signed;
    var l := FormatLayout(diskSize);
    var g := MountLayout(BootSector(l));
    assert g.numFats == 2 && BootSector(l).sectorsPerCluster == 4;
    LayoutFields(diskSize);
    BootRoundTrip(BootSector(l), rest);
    hide MountLayout, BootSector;
    MountAgreesWithFormat(diskSize);
    MountValidIff(diskSize);
    RootBehind(g, |before|);
    EmptyImage(l, g, BootBytes(BootSector(l), rest), before);
  }

  lemma EmptyImage(l: Layout, g: Geometry, boot: Sector, before: seq<Sector>)
    requires OnDisk(before, g) && g.fatStart == 1 && g.numFats == 2 && g.sectorsPerFat == l.sectorsPerFat
             && g.dataStart == l.dataStart
    ensures var disk := Image(l, boot, before);
            var s := State(disk, FreshTable(l.sectorsPerFat), false, map[], {});
            && Consistent(s, g) && AllUnique(s, g) && TreeOf(s, g).Keys == {0}
            && Blank(TreeOf(s, g)[0], 16 * g.RootSectors())
            && (forall x :: FileAt(s, g, 0, x) == None)
            && (forall i :: 0 <= i < 2 ==> FatCopy(disk, g, i) == Encode(s.t))
            && forall c: u16 :: 2 <= c < Limit(g) ==> c in FreeSet(s.t, Limit(g))
  {
    hide Image, FatCopy, Encode, Consistent, AllUnique, FileAt, RootBytes, Slots, TreeOf, Span;
    ImageFats(l, g, boot, before, 0);
    ImageFats(l, g, boot, before, 1);
    ImageRoot(l, g, boot, before);
    EmptyConsistent(Image(l, boot, before), g);
  }

  // ---------------------------------------------------------------- mounting

  // The boot sector is signed and gives the geometry g.
  predicate Boots(disk: seq<Sector>, g: Geometry) {
    && |disk| > 0 && Signed(disk[0])
    && ReadBoot(disk[0]).sectorsPerCluster > 0 && MountLayout(ReadBoot(disk[0])) == g
  }

  // The volume that a disk image holds, with the chains and directories it has.
  ghost function OnImage(disk: seq<Sector>, g: Geometry, chains: map<u16, seq<u16>>, dirs: set<u16>): State
    requires OnDisk(disk, g)
  {
    State(disk, Decode(FatCopy(disk, g, 0)), false, chains, dirs)
  }

  // If the disk is signed, it holds a consistent volume.
  ghost predicate HoldsVolume(disk: seq<Sector>, g: Geometry, chains: map<u16, seq<u16>>, dirs: set<u16>) {
    |disk| > 0 && Signed(disk[0]) ==> Boots(disk, g) && OnDisk(disk, g) && Consistent(OnImage(disk, g, chains, dirs), g)
  }

  /** fat_mount: an unsigned or unreadable disk and want of memory give NULL; otherwise the
      volume is the one on the disk, files and all. */
  method Mount(disk: Disk, memory: bool, ghost g: Geometry, ghost chains: map<u16, seq<u16>>, ghost dirs: set<u16>)
    returns (v: Volume?)
    requires HoldsVolume(disk.sectors, g, chains, dirs)
    modifies disk`clock
    ensures v != null ==> && fresh(v) && Boots(disk.sectors, g) && OnDisk(disk.sectors, g)
                          && v.Valid() && v.disk == disk && v.g == g && v.S() == OnImage(disk.sectors, g, chains, dirs)
    ensures old(disk.Reliable()) ==>
              disk.Reliable() && (v != null <==> memory && |disk.sectors| > 0 && Signed(disk.sectors[0]))
  {
    hide FatCopy, Encode, Decode, TreeOf, Span, ReadBoot, Signed, MountLayout, Owned, WellFormed, CacheAgrees;
    var blank: seq<byte> := seq(512, _ => 0);
    var ok, boot := disk.Read(0, blank, 0);
    if !ok || !memory {
      return null;
    }
    assert boot == disk.sectors[0];
    if !Signed(boot) {
      return null;
    }
    var layout := MountLayout(ReadBoot(boot));
    var fat;
    ok, fat := LoadTable(layout, disk);
    if !ok {
      return null;
    }
    DecodeEncode(fat.T());
    v := new Volume(layout, fat, disk, chains, dirs);
  }

  /** A clean volume is the one its disk holds. */
  lemma CleanIsOnImage(s: State, g: Geometry)
    requires Sound(s, g) && !s.dirty
    ensures OnImage(s.disk, g, s.chains, s.dirs) == s
  {
    hide FatCopy, Encode, Decode;
    DecodeEncode(s.t);
  }

  /** The formatted disk holds the empty volume. */
  lemma FormattedHolds(diskSize: nat, rest: Sector, before: seq<Sector>)
    requires GoodSize(diskSize) && |before| == FormatLayout(diskSize).totalSectors
    ensures var disk, g := FormattedImage(diskSize, rest, before), MountedGeometry(diskSize);
            && HoldsVolume(disk, g, map[], {}) && Boots(disk, g) && OnDisk(disk, g)
            && OnImage(disk, g, map[], {}) == EmptyVolume(diskSize, rest, before)
  {
    hide FormatLayout, FatCopy, Encode, AllUnique, FileAt, TreeOf, FreshTable, FreeSet, ReadBoot, Signed, MountLayout;
    hide Image;
    hide GoodSize, Owned, Decode, Blank, WellFormed, MountedGeometry, FormattedImage;
    FormattedMounts(diskSize, rest, before);
    CleanIsOnImage(EmptyVolume(diskSize, rest, before), MountedGeometry(diskSize));
  }

  /** Mounting again, without unmounting first, while the table is clean: the volume is the
      one that was mounted, with all its files. */
  method Remount(v: Volume, memory: bool) returns (w: Volume?)
    requires v.Valid() && !v.fat.dirty && Boots(v.disk.sectors, v.g)
    modifies v.disk`clock
    ensures w != null ==> fresh(w) && w.Valid() && w.disk == v.disk && w.g == v.g && w.S() == old(v.S())
    ensures old(v.disk.Reliable()) && memory ==> w != null
  {
    hide FatCopy, Encode, Decode, TreeOf, ReadBoot, Signed, MountLayout, Owned, WellFormed, CacheAgrees, FreeSet;
    CleanIsOnImage(v.S(), v.g);
    w := Mount(v.disk, memory, v.g, v.chains, v.dirs);
  }
}
