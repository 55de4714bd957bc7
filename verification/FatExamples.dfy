/**
 Where the FAT driver falls short, shown on a freshly formatted 20000-sector disk: a name
 that is lost, the children of a removed directory, a size beyond the chain, a node that
 goes by another file's name, a name entered twice, and bytes of a deleted file.
 */
module FatExamples {
  import opened FatTable
  import opened FatGeometry
  import opened FatData
  import opened FatIo
  import opened FatNames
  import opened FatDir
  import opened FatFs
  import opened FatState
  import opened FatSlots
  import opened FatOps
  import opened FatTheorems
  import opened FatLife
  import opened FatRuns
  import opened FatFormat
  import opened FatVolume

  const SIZE: nat := 20000 * 512
  const CLUSTERS: nat := 4981

  /** A newly formatted volume of 4981 clusters of 2048 bytes. */
  ghost predicate NewDisk(s: State, g: Geometry) {
    && Consistent(s, g) && g.totalClusters == CLUSTERS && g.sectorsPerCluster == 4
    && s.chains == map[] && s.dirs == {} && AllUnique(s, g) && Blank(TreeOf(s, g)[0], 512)
    && forall c: u16 :: 2 <= c < Limit(g) ==> c in FreeSet(s.t, Limit(g))
  }

  lemma SmallLayout()
    ensures GoodSize(SIZE) && FormatLayout(SIZE).totalSectors == 20000 && FormatLayout(SIZE).totalClusters == CLUSTERS
  {
    var l := FormatLayout(SIZE);
    assert SIZE / 512 == 20000;
    assert l.totalSectors == 20000 && l.tmp1 == 19967 && l.sectorsPerFat == 20 && l.dataStart == 73;
  }

  /** Formatting a 20000-sector disk gives one. */
  lemma FormattedIsNew(rest: Sector, before: seq<Sector>)
    requires |before| == 20000
    ensures NewDisk(EmptyVolume(SIZE, rest, before), MountedGeometry(SIZE))
  {
    hide FormatLayout, FormattedImage, AllUnique, TreeOf, FileAt, FatCopy, Encode, GoodSize, Consistent, FreeSet;
    hide FreshTable, MountLayout, Blank;
    SmallLayout();
    FormattedMounts(SIZE, rest, before);
    Geometry4(SIZE);
    ShapedOf(EmptyVolume(SIZE, rest, before), MountedGeometry(SIZE));
  }

  lemma Geometry4(diskSize: nat)
    requires GoodSize(diskSize)
    ensures MountedGeometry(diskSize).sectorsPerCluster == 4
            && MountedGeometry(diskSize).totalClusters == FormatLayout(diskSize).totalClusters
  {
    hide FormatLayout;
    MountAgreesWithFormat(diskSize);
  }

  lemma AllFree(t: seq<u16>, n: nat)
    requires 2 <= n <= |t| && n < 0x10000 && forall c: u16 :: 2 <= c < n ==> c in FreeSet(t, n)
    ensures (forall c: u16 :: 2 <= c < n ==> t[c] == FREE) && |FreeSet(t, n)| == n - 2
    ensures 2 < n ==> FirstFree(t, n, 2) == 2
  {
    var low: set<u16> := {0, 1};
    forall c: u16 | 2 <= c < n
      ensures t[c] == FREE
    {
      assert c in FreeSet(t, n);
    }
    assert FreeSet(t, n) + low == Below(n);
    assert FreeSet(t, n) !! low;
    assert |FreeSet(t, n) + low| == |FreeSet(t, n)| + |low|;
  }

  // In a blank directory a new name fits into slot 0.
  lemma BlankRoom(v: seq<Slot>, n: nat, name: seq<byte>)
    requires Blank(v, n) && n > 0
    ensures HasRoom(v, name) && FirstMatch(Vacant, v) == 0
  {
    hide FirstMatch;
    FirstMatchIs(Named(name), v, |v|);
    FirstMatchIs(Vacant, v, 0);
  }

  // ---------------------------------------------------------------- a lost name

  const LOST_NAME: seq<byte> := [0xE5, 0x41, 0x20, 0x20, 0x20, 0x20, 0x20, 0x20, 0x20, 0x20, 0x20]

  /** A file whose name starts with 0xE5 is created and cannot be unlinked: its cluster
      stays in use. */
  lemma LostNameLeaks(s: State, r: State, q: State, g: Geometry, c: u16, ok: bool, k: nat)
    requires NewDisk(s, g) && Consistent(r, g) && Consistent(q, g)
    requires CreateDone(s, r, g, 0, LOST_NAME, c, true) && UnlinkDone(r, q, g, 0, LOST_NAME, ok, k, true)
    ensures c == 2 && !ok && FreeSet(q.t, Limit(g)) != FreeSet(s.t, Limit(g))
  {
    hide Consistent, TreeOf, AllUnique, FreeSet, FilesKept, UnlinkDone, FirstFree, FirstMatch, Entered, SlotFilled;
    hide Blank;
    FirstSlot(s, g, LOST_NAME);
    assert c != 0;
    LifeRestoresFree(s, [r], q, g, 0, LOST_NAME, c, ok, k);
  }

  // On the new disk the first create succeeds with cluster 2 and slot 0 of the root.
  lemma FirstSlot(s: State, g: Geometry, name: seq<byte>)
    requires NewDisk(s, g)
    ensures CanCreate(s, g, 0, name) && FirstFree(s.t, Limit(g), 2) == 2 && FirstMatch(Vacant, TreeOf(s, g)[0]) == 0
    ensures |FreeSet(s.t, Limit(g))| == CLUSTERS
  {
    hide TreeOf, AllUnique, FreeSet, FirstFree, FirstMatch, Blank, WellFormed, Owned, CacheAgrees, Laid;
    AllFree(s.t, Limit(g));
    BlankRoom(TreeOf(s, g)[0], 512, name);
  }

  // ---------------------------------------------------------------- a removed directory

  const A_NAME: seq<byte> := [0x41, 0x20, 0x20, 0x20, 0x20, 0x20, 0x20, 0x20, 0x20, 0x20, 0x20]
  const B_NAME: seq<byte> := [0x42, 0x20, 0x20, 0x20, 0x20, 0x20, 0x20, 0x20, 0x20, 0x20, 0x20]

  // In a new directory the first vacant slot is the third.
  lemma NewDirRoom(g: Geometry, first: u16, parent: u16, name: seq<byte>)
    requires g.Valid() && IsName(name)
    ensures var v := DirImageSlots(g, first, parent);
            |v| > 2 && HasRoom(v, name) && FirstMatch(Vacant, v) == 2
  {
    hide FirstMatch, DirImageSlots, NameOf;
    var v := DirImageSlots(g, first, parent);
    DirImageNames(g, first, parent);
    DirImageSize(g, first, parent);
    forall k | 0 <= k <= 2
      ensures if k < 2 then v[k][0] == DOT else v[k][0] == 0
    {
      DirImageAt(g, first, parent, k);
      DotNames(v[k], k);
    }
    FirstMatchIs(Vacant, v, 2);
  }

  lemma DirImageSize(g: Geometry, first: u16, parent: u16)
    requires g.Valid()
    ensures |DirImageSlots(g, first, parent)| == 16 * g.sectorsPerCluster
  {
  }

  lemma DotNames(e: Slot, k: nat)
    requires k < 2 ==> NameOf(e) == (if k == 0 then DOT_NAME else DOTDOT_NAME)
    ensures k < 2 ==> e[0] == DOT
  {
    assert DOT_NAME[0] == DOT && DOTDOT_NAME[0] == DOT;
    assert k < 2 ==> NameOf(e)[0] == e[0];
  }

  // The tree after mkdir A: its entry in slot 0 of the root, and the new directory.
  lemma AfterMkdir(s: State, s1: State, g: Geometry, a: u16)
    requires NewDisk(s, g) && Consistent(s1, g) && MkdirDone(s, s1, g, 0, A_NAME, a, true)
    ensures a == 2 && s1.chains == map[2 := [2]] && s1.dirs == {2} && s1.t == s.t[2 := EOC]
    ensures |TreeOf(s, g)[0]| > 0
    ensures TreeOf(s1, g) == TreeOf(s, g)[0 := PutSlot(TreeOf(s, g)[0], 0, NewEntry(A_NAME, ATTR_DIRECTORY, 2))]
                                         [2 := DirImageSlots(g, 2, 0)]
  {
    hide TreeOf, Consistent, AllUnique, FreeSet, FilesKept, FirstFree, FirstMatch, SlotFilled, NewEntry, PutSlot;
    hide DirImageSlots;
    ShapedOf(s, g);
    FirstSlot(s, g, A_NAME);
    assert a == 2;
  }

  // The tree after create B in it: its entry in the third slot.
  lemma AfterCreate(s: State, s1: State, s2: State, g: Geometry, b: u16)
    requires NewDisk(s, g) && Consistent(s1, g) && MkdirDone(s, s1, g, 0, A_NAME, 2, true)
    requires Consistent(s2, g) && 2 in TreeOf(s1, g) && CreateDone(s1, s2, g, 2, B_NAME, b, true)
    ensures b == 3 && s2.chains == map[2 := [2], 3 := [3]] && s2.dirs == {2}
    ensures |TreeOf(s1, g)[2]| > 2
            && TreeOf(s2, g) == TreeOf(s1, g)[2 := PutSlot(TreeOf(s1, g)[2], 2, NewEntry(B_NAME, ATTR_FILE, 3))]
  {
    hide TreeOf, Consistent, AllUnique, Blank, FreeSet, FilesKept, FirstFree, FirstMatch, SlotFilled, NewEntry;
    hide PutSlot, DirImageSlots, MkdirDone, HasRoom;
    ShapedOf(s1, g);
    hide WellFormed, Laid;
    AfterMkdir(s, s1, g, 2);
    NewDirRoom(g, 2, 0, B_NAME);
    NextFree(s, g);
    assert CanCreate(s1, g, 2, B_NAME);
    assert SlotWritable(g, 2, 2);
  }

  lemma NextFree(s: State, g: Geometry)
    requires NewDisk(s, g)
    ensures Limit(g) <= |s.t| && FirstFree(s.t[2 := EOC], Limit(g), 2) == 3
  {
    hide TreeOf, AllUnique, Blank, WellFormed, Owned, CacheAgrees, Laid;
    AllFree(s.t, Limit(g));
    var t := s.t[2 := EOC];
    assert t[3] == FREE;
    assert FirstFree(t, Limit(g), 3) == 3;
  }

  /** Make a directory, create a file in it, remove the directory: rmdir succeeds, and the
      file's cluster is in use, on a chain that no entry owns. */
  lemma RmdirOrphansFile(s: State, s1: State, s2: State, q: State, g: Geometry, b: u16, ok: bool, k: nat)
    requires NewDisk(s, g) && Consistent(s1, g) && Consistent(s2, g) && Consistent(q, g)
    requires MkdirDone(s, s1, g, 0, A_NAME, 2, true) && 2 in TreeOf(s1, g)
    requires CreateDone(s1, s2, g, 2, B_NAME, b, true) && UnlinkDone(s2, q, g, 0, A_NAME, ok, k, true)
    ensures ok && b == 3 && HasOwner(TreeOf(s2, g), 3) && !HasOwner(TreeOf(q, g), 3)
    ensures 3 in q.chains && q.t[3] != FREE
  {
    AfterMkdir(s, s1, g, 2);
    AfterCreate(s, s1, s2, g, b);
    var ea, eb := NewEntry(A_NAME, ATTR_DIRECTORY, 2), NewEntry(B_NAME, ATTR_FILE, 3);
    hide TreeOf, AllUnique, FreeSet, FilesKept, FirstFree, FirstMatch, SlotFilled, NewEntry, MkdirDone, CreateDone;
    hide DirImageSlots, Owned, FreeFrom, IsValidEntry, IsDirectory, HasOwner;
    var v := TreeOf(s2, g);
    EntryOf(ea, A_NAME);
    EntryOf(eb, B_NAME);
    assert v[0][0] == ea && v[2][2] == eb;
    FirstMatchIs(Named(A_NAME), v[0], 0);
    assert ok && k == 0;
    ChildOrphaned(v, TreeOf(q, g), s2.chains.Keys, s2.dirs, 0, 0, 2);
    ChainOf(q, g, 3);
    ChainNotFree(q.t, Limit(g), q.chains[3], 0);
  }

  lemma EntryOf(e: Slot, name: seq<byte>)
    requires NameOf(e) == name && IsName(name) && name[0] != DELETED && (e[11] == ATTR_DIRECTORY || e[11] == ATTR_FILE)
    ensures IsValidEntry(e) && Owning(e)
  {
    assert NameOf(e)[0] == e[0];
  }

  // ---------------------------------------------------------------- a size beyond the chain

  const ALL_BYTES: nat := CLUSTERS * 2048

  lemma SpanAll(g: Geometry)
    requires g.sectorsPerCluster == 4
    ensures g.ClusterSize() == 2048 && Span(CLUSTERS, g.ClusterSize()) == ALL_BYTES
  {
    SpanIsProduct(CLUSTERS, 2048);
  }

  lemma NeededAll(g: Geometry)
    requires g.Valid() && g.sectorsPerCluster == 4
    ensures NeededClusters(g, 0, ALL_BYTES) == CLUSTERS && NeededClusters(g, ALL_BYTES + 1, 1) == CLUSTERS + 1
  {
    assert g.ClusterSize() == 2048;
    assert (ALL_BYTES + 2047) % TWO_32 == ALL_BYTES + 2047 && (ALL_BYTES + 2 + 2047) % TWO_32 == ALL_BYTES + 2049;
    assert (ALL_BYTES + 2047) / 2048 == CLUSTERS && (ALL_BYTES + 2049) / 2048 == CLUSTERS + 1;
  }

  // A file as large as the volume leaves no cluster free.
  lemma FillsVolume(s: State, s1: State, s2: State, g: Geometry, size: nat, n: nat, data: seq<byte>, written: nat)
    requires NewDisk(s, g) && Consistent(s1, g) && Consistent(s2, g) && CreateDone(s, s1, g, 0, A_NAME, 2, true)
    requires 0 in TreeOf(s1, g) && FileWritten(s1, s2, g, 0, A_NAME, 2, size, 2, n, 0, data, written, true)
             && |data| == ALL_BYTES
    ensures 2 in s2.chains && |s2.chains[2]| == CLUSTERS && FreeSet(s2.t, Limit(g)) == {}
  {
    hide TreeOf, Consistent, AllUnique, Blank, FreeSet, FilesKept, FirstFree, SlotFilled, EntryUpdated, CanCreate;
    hide Entered, NeededClusters, Grown, Span, FileBytes;
    ShapedOf(s, g);
    ShapedOf(s1, g);
    ShapedOf(s2, g);
    hide WellFormed, Laid;
    FirstSlot(s, g, A_NAME);
    NeededAll(g);
    AllocCounts(s.t, Limit(g), 2);
    WriteLength(s1, s2, g, 2, 2, 0, data, written, true);
    assert IsWrite(s1, s2, g, 2);
    WriteUsesFree(s1, s2, g, 2);
    UsedUp(s1, s2, g);
  }

  lemma UsedUp(s1: State, s2: State, g: Geometry)
    requires Consistent(s1, g) && Consistent(s2, g) && 2 in s1.chains && s1.chains[2] == [2]
             && |FreeSet(s1.t, Limit(g))| == CLUSTERS - 1
    requires 2 in s2.chains && |s2.chains[2]| == CLUSTERS
    requires FreeSet(s2.t, Limit(g)) + Elements(s2.chains[2]) == FreeSet(s1.t, Limit(g)) + Elements(s1.chains[2])
    ensures FreeSet(s2.t, Limit(g)) == {}
  {
    hide TreeOf, Owned, CacheAgrees, Laid;
    var f, c := FreeSet(s2.t, Limit(g)), s2.chains[2];
    ChainOf(s2, g, 2);
    DistinctCount(c);
    DistinctCount([2]);
    forall x | x in Elements(c)
      ensures x !in f
    {
      var i :| 0 <= i < |c| && c[i] == x;
      ChainNotFree(s2.t, Limit(g), c, i);
    }
    UnionSize(f, Elements(c));
    UnionBound(FreeSet(s1.t, Limit(g)), Elements([2]));
  }

  lemma UnionSize(a: set<u16>, b: set<u16>)
    requires a !! b
    ensures |a + b| == |a| + |b|
  {
  }

  lemma UnionBound(a: set<u16>, b: set<u16>)
    ensures |a + b| <= |a| + |b|
  {
    assert a + b == a + (b - a);
    UnionSize(a, b - a);
    FatOps.SubsetCount(b - a, b);
  }

  /** Create a file, fill the whole volume with it, then write one byte one past its end: the
      call returns 0, and the size rises beyond the file's clusters. */
  lemma SizeBeyondChain(s: State, s1: State, s2: State, s3: State, g: Geometry, m: nat, n: nat, data: seq<byte>,
                        x: byte, written: nat, last: nat)
    requires NewDisk(s, g) && Consistent(s1, g) && Consistent(s2, g) && Consistent(s3, g)
    requires CreateDone(s, s1, g, 0, A_NAME, 2, true) && 0 in TreeOf(s1, g) && |data| == ALL_BYTES
    requires FileWritten(s1, s2, g, 0, A_NAME, 2, 0, 2, m, 0, data, written, true) && 0 in TreeOf(s2, g)
    requires FileWritten(s2, s3, g, 0, A_NAME, 2, m, 2, n, ALL_BYTES + 1, [x], last, true)
    ensures m == ALL_BYTES && last == 0 && n == ALL_BYTES + 1
    ensures 2 in s3.chains && n > Reach(s3, g, 2)
  {
    hide TreeOf, Consistent, AllUnique, Blank, FreeSet, FilesKept, FirstFree, SlotFilled, EntryUpdated, CreateDone;
    hide NeededClusters, Grown, Span, FileBytes;
    ShapedOf(s1, g);
    ShapedOf(s2, g);
    ShapedOf(s3, g);
    hide WellFormed, Laid;
    FillsVolume(s, s1, s2, g, 0, m, data, written);
    SpanAll(g);
    NeededAll(g);
    assert m == ALL_BYTES;
    SizeCovered(s2, s3, g, 0, A_NAME, 2, m, 2, n, ALL_BYTES + 1, [x], last, true);
  }

  // ---------------------------------------------------------------- two files in the root

  // The root after two files have been created in it: entries in slots 0 and 1, clusters 2
  // and 3.
  ghost predicate TwoFiles(s: State, s1: State, s2: State, g: Geometry, x: seq<byte>, y: seq<byte>) {
    && NewDisk(s, g) && Consistent(s1, g) && Consistent(s2, g) && IsName(x) && IsName(y) && x != y
    && x[0] != DELETED && y[0] != DELETED && 0 in TreeOf(s1, g)
    && CreateDone(s, s1, g, 0, x, 2, true) && CreateDone(s1, s2, g, 0, y, 3, true)
  }

  // The tree after the first create: its entry in slot 0.
  lemma AfterFirst(s: State, s1: State, g: Geometry, x: seq<byte>, a: u16)
    requires NewDisk(s, g) && Consistent(s1, g) && IsName(x) && x[0] != DELETED && CreateDone(s, s1, g, 0, x, a, true)
    ensures a == 2 && s1.chains == map[2 := [2]] && s1.dirs == {} && s1.t == s.t[2 := EOC]
    ensures Blank(TreeOf(s, g)[0], 512)
            && TreeOf(s1, g) == map[0 := PutSlot(TreeOf(s, g)[0], 0, NewEntry(x, ATTR_FILE, 2))]
  {
    hide TreeOf, Consistent, AllUnique, FreeSet, FilesKept, FirstFree, FirstMatch, SlotFilled, NewEntry, PutSlot;
    hide OnlyDir;
    ShapedOf(s, g);
    ShapedOf(s1, g);
    hide WellFormed, Laid;
    FirstSlot(s, g, x);
    assert a == 2;
    var v := PutSlot(TreeOf(s, g)[0], 0, NewEntry(x, ATTR_FILE, 2));
    assert TreeOf(s, g).Keys == {0};
    assert TreeOf(s1, g) == TreeOf(s, g)[0 := v];
  }

  // Slots 0 and 1 in a root that was blank.
  lemma OneEntry(v: seq<Slot>, x: seq<byte>, c: u16, y: seq<byte>)
    requires Blank(v, 512) && IsName(x) && x[0] != DELETED
    ensures var w := PutSlot(v, 0, NewEntry(x, ATTR_FILE, c));
            && |w| == 512 && FirstMatch(Vacant, w) == 1 && FirstMatch(Named(x), w) == 0 && UniqueNames(w)
            && (y != x ==> FirstMatch(Named(y), w) == 512)
            && forall k :: 1 <= k < 512 ==> !Matches(Named(x), w[k])
  {
    hide FirstMatch, NewEntry, IsDirectory, FirstCluster;
    var e := NewEntry(x, ATTR_FILE, c);
    EntryOf(e, x);
    var w := PutSlot(v, 0, e);
    FirstMatchIs(Vacant, w, 1);
    FirstMatchIs(Named(x), w, 0);
    if y != x {
      FirstMatchIs(Named(y), w, 512);
    }
  }

  // The tree after the second create: its entry in slot 1.
  lemma AfterSecond(s: State, s1: State, s2: State, g: Geometry, x: seq<byte>, y: seq<byte>)
    requires TwoFiles(s, s1, s2, g, x, y)
    ensures s2.chains == map[2 := [2], 3 := [3]] && s2.dirs == {}
    ensures var ex, ey := NewEntry(x, ATTR_FILE, 2), NewEntry(y, ATTR_FILE, 3);
            && Blank(TreeOf(s, g)[0], 512)
            && TreeOf(s2, g) == map[0 := PutSlot(PutSlot(TreeOf(s, g)[0], 0, ex), 1, ey)]
  {
    hide TreeOf, Consistent, AllUnique, FreeSet, FilesKept, FirstFree, FirstMatch, SlotFilled, NewEntry, OnlyDir, Blank;
    ShapedOf(s, g);
    ShapedOf(s1, g);
    ShapedOf(s2, g);
    hide WellFormed, Laid;
    AfterFirst(s, s1, g, x, 2);
    NextFree(s, g);
    OneEntry(TreeOf(s, g)[0], x, 2, y);
  }

  // What the two names find there.
  lemma TwoEntries(v: seq<Slot>, x: seq<byte>, y: seq<byte>)
    requires Blank(v, 512) && IsName(x) && IsName(y) && x != y && x[0] != DELETED && y[0] != DELETED
    ensures var w := PutSlot(PutSlot(v, 0, NewEntry(x, ATTR_FILE, 2)), 1, NewEntry(y, ATTR_FILE, 3));
            && |w| == 512 && FirstMatch(Named(x), w) == 0 && FirstMatch(Named(y), w) == 1 && UniqueNames(w)
            && !IsDirectory(w[0]) && !IsDirectory(w[1]) && FirstCluster(w[1]) == 3 && FileSize(w[1]) == 0
  {
    hide FirstMatch, FirstCluster;
    var ex, ey := NewEntry(x, ATTR_FILE, 2), NewEntry(y, ATTR_FILE, 3);
    hide NewEntry;
    EntryOf(ex, x);
    EntryOf(ey, y);
    var w := PutSlot(PutSlot(v, 0, ex), 1, ey);
    FirstMatchIs(Named(x), w, 0);
    FirstMatchIs(Named(y), w, 1);
  }

  // ---------------------------------------------------------------- a misnamed node

  const A_STRING: seq<byte> := [0x41]
  const AB_STRING: seq<byte> := [0x41, 0x20, 0x42]
  const AB_NAME: seq<byte> := [0x41, 0x20, 0x42, 0x20, 0x20, 0x20, 0x20, 0x20, 0x20, 0x20, 0x20]

  lemma PlainName(x: seq<byte>, n: seq<byte>)
    requires |x| <= 8 && (forall i :: 0 <= i < |x| ==> x[i] != DOT && Upper(x[i]) == x[i])
    requires |n| == 11 && forall i :: 0 <= i < 11 ==> n[i] == if i < |x| then x[i] else SPACE
    ensures ToFat(x) == n
  {
    assert IndexOf(x, DOT) == |x|;
    assert Base(x) == x && Ext(x) == [];
  }

  lemma ExampleNames()
    ensures ToFat(A_STRING) == A_NAME && ToFat(AB_STRING) == AB_NAME && ToStr(AB_NAME) == A_STRING && A_NAME != AB_NAME
  {
    PlainName(A_STRING, A_NAME);
    PlainName(AB_STRING, AB_NAME);
    NameLostExample();
    assert A_NAME[2] != AB_NAME[2];
  }

  /** With files "A" and "A B" in the root, finddir gives the node of "A B" the name "A", so
      that it does not stand for its file.  One byte written through it makes "A" stand for
      that byte while "A B" stays empty, and both entries own cluster 3. */
  lemma MisnamedExample(s: State, s1: State, s2: State, r: State, g: Geometry, c: u16, n: nat, x: byte, written: nat)
    requires TwoFiles(s, s1, s2, g, A_NAME, AB_NAME) && 0 in TreeOf(s2, g) && Shaped(r, g) && 0 in TreeOf(r, g)
    requires FileWritten(s2, r, g, 0, ToFat(ToStr(ToFat(AB_STRING))), 3, 0, c, n, 0, [x], written, true)
    ensures !Reopens(TreeOf(s2, g)[0], AB_STRING, 3)
    ensures FileAt(r, g, 0, ToFat(A_STRING)) == Some([x]) && FileAt(r, g, 0, ToFat(AB_STRING)) == Some([])
    ensures !Owned(TreeOf(r, g), r.chains.Keys, r.dirs)
  {
    hide TreeOf, AllUnique, Blank, FreeSet, FilesKept, FirstFree, FirstMatch, SlotFilled, NewEntry, OnlyDir, ToFat;
    hide ToStr, FileAt;
    hide WellFormed, Laid, Owned, CacheAgrees, Grown, Span, FileBytes, Stored, NeededClusters, UniqueNames, Outcome;
    hide Content, CreateDone;
    ExampleNames();
    AfterSecond(s, s1, s2, g, A_NAME, AB_NAME);
    TwoEntries(TreeOf(s, g)[0], A_NAME, AB_NAME);
    hide FileSize, FirstCluster, IsDirectory, PutSlot;
    var v := TreeOf(s2, g)[0];
    assert FirstMatch(Named(AB_NAME), v) == 1 && FirstMatch(Named(A_NAME), v) == 0;
    NameRoundTrip(AB_STRING);
    SmallUnique(s2, g);
    assert written == 1 by { FirstByteFits(s2, r, g, 3, x, written); }
    MisnamedWrite(s2, r, g, 0, AB_NAME, A_NAME, 3, c, 0, 0, [x], written);
    NoContent(s2, g, 3);
    FromEmpty(s2, r, g, c, x);
  }

  lemma SmallUnique(s: State, g: Geometry)
    requires Consistent(s, g) && s.dirs == {} && UniqueNames(TreeOf(s, g)[0])
    ensures AllUnique(s, g)
  {
    hide TreeOf, UniqueNames, WellFormed, Owned, CacheAgrees;
  }

  lemma FirstByteFits(s: State, r: State, g: Geometry, c: u16, x: byte, written: nat)
    requires Consistent(s, g) && Shaped(r, g) && c != 0 && WriteDone(s, r, g, c, c, 0, [x], written, true)
    ensures written == 1
  {
    hide TreeOf, FilesKept, WellFormed, Owned, CacheAgrees, FileBytes, Stored, Grown, NeededClusters;
    SpanMono(0, |r.chains[c]|, g.ClusterSize());
  }

  lemma NoContent(s: State, g: Geometry, c: u16)
    requires Shaped(s, g)
    ensures Content(s, g, c, 0) == []
  {
    hide TreeOf, WellFormed, FileBytes;
  }

  lemma FromEmpty(s: State, r: State, g: Geometry, c: u16, x: byte)
    requires Shaped(s, g) && Shaped(r, g) && c in r.chains
    ensures Outcome([], FileBytes(s.disk, g, r.chains[c]), 0, [x][..1]) == [x]
  {
    hide TreeOf, WellFormed, FileBytes;
  }

  // ---------------------------------------------------------------- a name entered twice

  const B_STRING: seq<byte> := [0x42]

  // Create under a name that is in use, while the first read fails: there are two of it.
  method BlindCreate(v: Volume, d: u16, name: seq<byte>) returns (first: u16)
    requires v.Valid() && v.IsOpenDir(d) && IsCString(name) && AllUnique(v.S(), v.g) && ToFat(name)[0] != DELETED
    requires v.disk.FailsOnce() && v.Hidden(d, ToFat(name)) && FirstMatch(Named(ToFat(name)), v.Dir(d)) < |v.Dir(d)|
    requires FirstMatch(Vacant, v.Dir(d)) < |v.Dir(d)| && SlotWritable(v.g, d, FirstMatch(Vacant, v.Dir(d)))
    requires FirstFree(v.fat.T(), Limit(v.g), 2) < Limit(v.g)
    modifies v, v.fat, v.fat.table, v.disk
    ensures v.Valid() && first != 0 && v.IsOpenDir(d) && !UniqueNames(v.Dir(d))
  {
    hide TreeOf, Owned, WellFormed, CacheAgrees, Laid, ToFat, FirstMatch, FirstFree, UniqueNames, NewEntry, OnlyDir;
    hide FilesKept;
    hide CanCreate, SlotFilled, AllUnique;
    ghost var s, f := v.S(), ToFat(name);
    NeverDotOrNul(name);
    first := v.Create(d, name);
    ghost var u, k := TreeOf(s, v.g)[d], FirstMatch(Vacant, TreeOf(s, v.g)[d]);
    UniqueAt(s, v.g, d);
    VacantAt(u);
    UniqueFilled(TreeOf(s, v.g), TreeOf(v.S(), v.g), d, NewEntry(f, ATTR_FILE, first), f);
    EntryChanges(u, k, NewEntry(f, ATTR_FILE, first), f);
  }

  lemma UniqueAt(s: State, g: Geometry, d: u16)
    requires Consistent(s, g) && AllUnique(s, g) && d in TreeOf(s, g)
    ensures UniqueNames(TreeOf(s, g)[d])
  {
    hide TreeOf, UniqueNames;
  }

  lemma VacantAt(u: seq<Slot>)
    requires FirstMatch(Vacant, u) < |u|
    ensures IsVacant(u[FirstMatch(Vacant, u)])
  {
    hide FirstMatch;
    assert Matches(Vacant, u[FirstMatch(Vacant, u)]);
  }

  lemma EntryChanges(u: seq<Slot>, k: nat, e: Slot, f: seq<byte>)
    requires k < |u| && IsVacant(u[k]) && NameOf(e) == f && |f| == 11 && f[0] != 0 && f[0] != DELETED
    ensures PutSlot(u, k, e) != u
  {
    assert e[0] == NameOf(e)[0];
    assert PutSlot(u, k, e)[k] == e;
  }

  /** With "A" in the root of a new disk, the first read of the next create fails, and no
      other: create of "A" succeeds, and the root holds two files "A". */
  method RootDuplicate(v: Volume, ghost s: State) returns (first: u16)
    requires v.Valid() && v.disk.FailsOnce() && NewDisk(s, v.g) && CreateDone(s, v.S(), v.g, 0, A_NAME, 2, true)
    modifies v, v.fat, v.fat.table, v.disk
    ensures v.Valid() && first != 0 && !UniqueNames(v.Dir(0))
  {
    hide TreeOf, AllUnique, Blank, FreeSet, FilesKept, FirstFree, FirstMatch, SlotFilled, NewEntry, OnlyDir, ToFat;
    hide CreateDone;
    hide WellFormed, Laid, Owned, CacheAgrees, UniqueNames, PutSlot;
    ExampleNames();
    AfterFirst(s, v.S(), v.g, A_NAME, 2);
    OneEntry(TreeOf(s, v.g)[0], A_NAME, 2, A_NAME);
    NextFree(s, v.g);
    SmallUnique(v.S(), v.g);
    first := BlindCreate(v, 0, A_STRING);
  }

  // The new directory with a file in its third slot.
  lemma OneInside(g: Geometry, x: seq<byte>)
    requires g.Valid() && g.sectorsPerCluster == 4 && IsName(x) && x[0] != DELETED
    ensures |DirImageSlots(g, 2, 0)| == 64
    ensures var w := PutSlot(DirImageSlots(g, 2, 0), 2, NewEntry(x, ATTR_FILE, 3));
            && |w| == 64 && FirstMatch(Vacant, w) == 3 && FirstMatch(Named(x), w) == 2 && UniqueNames(w)
  {
    hide FirstMatch, NewEntry, DirImageSlots, NameOf, FirstCluster, IsDirectory, UniqueNames;
    var v, e := DirImageSlots(g, 2, 0), NewEntry(x, ATTR_FILE, 3);
    DirImageSize(g, 2, 0);
    NewDirRoom(g, 2, 0, x);
    DirImageNames(g, 2, 0);
    EntryOf(e, x);
    forall k | 0 <= k <= 3
      ensures if k < 2 then v[k][0] == DOT else v[k][0] == 0
    {
      DirImageAt(g, 2, 0, k);
      DotNames(v[k], k);
    }
    CreatedLookup(v, e);
    var w := PutSlot(v, 2, e);
    FirstMatchIs(Vacant, w, 3);
  }

  /** The same in a subdirectory, for a file "B" in the directory "A". */
  method SubdirDuplicate(v: Volume, ghost s: State, ghost s1: State) returns (first: u16)
    requires v.Valid() && v.disk.FailsOnce() && NewDisk(s, v.g) && Consistent(s1, v.g)
    requires MkdirDone(s, s1, v.g, 0, A_NAME, 2, true) && 2 in TreeOf(s1, v.g)
    requires CreateDone(s1, v.S(), v.g, 2, B_NAME, 3, true)
    modifies v, v.fat, v.fat.table, v.disk
    ensures v.Valid() && first != 0 && v.IsOpenDir(2) && !UniqueNames(v.Dir(2))
  {
    hide TreeOf, AllUnique, Blank, FreeSet, FilesKept, FirstFree, FirstMatch, SlotFilled, NewEntry, OnlyDir, ToFat;
    hide CreateDone;
    hide WellFormed, Laid, Owned, CacheAgrees, UniqueNames, PutSlot, MkdirDone, DirImageSlots, Entered, CanCreate;
    AfterMkdir(s, s1, v.g, 2);
    AfterCreate(s, s1, v.S(), v.g, 3);
    OneInside(v.g, B_NAME);
    PlainName(B_STRING, B_NAME);
    ThirdFree(s, s1, v.S(), v.g);
    TidySub(s, v.S(), v.g);
    first := BlindCreate(v, 2, B_STRING);
  }

  lemma ThirdFree(s: State, s1: State, s2: State, g: Geometry)
    requires NewDisk(s, g) && Consistent(s1, g) && Consistent(s2, g) && MkdirDone(s, s1, g, 0, A_NAME, 2, true)
    requires 2 in TreeOf(s1, g) && CreateDone(s1, s2, g, 2, B_NAME, 3, true)
    ensures FirstFree(s2.t, Limit(g), 2) < Limit(g)
  {
    hide TreeOf, AllUnique, Blank, WellFormed, Owned, CacheAgrees, Laid, FilesKept, OnlyDir, SlotFilled, NewEntry;
    hide DirImageSlots;
    hide Entered, CanCreate;
    AllFree(s.t, Limit(g));
    assert s2.t[4] == FREE;
  }

  lemma TidySub(s: State, r: State, g: Geometry)
    requires NewDisk(s, g) && Consistent(r, g) && r.dirs == {2}
    requires |TreeOf(s, g)[0]| > 0 && |DirImageSlots(g, 2, 0)| > 2
    requires TreeOf(r, g) == TreeOf(s, g)[0 := PutSlot(TreeOf(s, g)[0], 0, NewEntry(A_NAME, ATTR_DIRECTORY, 2))]
                                         [2 := PutSlot(DirImageSlots(g, 2, 0), 2, NewEntry(B_NAME, ATTR_FILE, 3))]
    requires UniqueNames(PutSlot(DirImageSlots(g, 2, 0), 2, NewEntry(B_NAME, ATTR_FILE, 3)))
    ensures AllUnique(r, g)
  {
    hide TreeOf, WellFormed, Owned, CacheAgrees, Laid, FreeSet, NewEntry, DirImageSlots, FirstCluster, IsDirectory;
    hide NameOf;
    var v, e := TreeOf(s, g)[0], NewEntry(A_NAME, ATTR_DIRECTORY, 2);
    EntryOf(e, A_NAME);
    assert UniqueNames(PutSlot(v, 0, e));
  }

  // ---------------------------------------------------------------- bytes of a deleted file

  // What lies in one cluster needs no other.
  lemma OneNeeded(g: Geometry, offset: nat, length: nat)
    requires g.Valid() && g.sectorsPerCluster == 4 && offset + length <= 2048
    ensures NeededClusters(g, offset, length) <= 1
  {
    assert g.ClusterSize() == 2048;
  }

  lemma NotGrown(s: State, g: Geometry, c: u16, needed: nat)
    requires Shaped(s, g) && c in s.chains && s.chains[c] == [c] && needed <= 1
    ensures Grown(s, g, c, needed).chains == s.chains && Grown(s, g, c, needed).t == s.t
  {
    hide Extended, Laid;
    ChainIs(s, g, c);
    ExtendedDone(s.t, Limit(g), s.chains[c], needed);
    assert s.chains[c := [c]] == s.chains;
  }

  // A write inside the only cluster of a file.
  lemma SmallWrite(s: State, r: State, g: Geometry, c: u16, offset: nat, data: seq<byte>, written: nat)
    requires Consistent(s, g) && Shaped(r, g) && g.sectorsPerCluster == 4 && c in s.chains && c != 0
             && s.chains[c] == [c]
    requires WriteDone(s, r, g, c, c, offset, data, written, true) && offset + |data| <= 2048 && |data| > 0
    ensures r.chains == s.chains && r.t == s.t && r.dirs == s.dirs && written == |data|
    ensures OnDisk(r.disk, g) && g.IsCluster(c)
    ensures ClusterBytes(r.disk, g, c) == Splice(ClusterBytes(s.disk, g, c), offset, data)
  {
    hide TreeOf, FilesKept, Owned, CacheAgrees, FileBytes, Stored, Grown, Span, ClusterBytes, NeededClusters;
    hide WellFormed;
    OneNeeded(g, offset, |data|);
    NotGrown(s, g, c, NeededClusters(g, offset, |data|));
    assert Span(1, 2048) == 2048 by { SpanIsProduct(1, 2048); }
    OneCluster(r.disk, g, c);
    OneCluster(s.disk, g, c);
    assert data[..|data|] == data;
  }

  // Directory changes leave cluster 2, which is no directory's, as it is.
  lemma SparesCluster(s: State, r: State, g: Geometry)
    requires Shaped(s, g) && Shaped(r, g) && OnlyDir(s.disk, r.disk, g, s.chains, 0) && g.IsCluster(2)
    ensures ClusterBytes(r.disk, g, 2) == ClusterBytes(s.disk, g, 2)
  {
    hide TreeOf, WellFormed, OnlyDir, ClusterBytes;
    OnlyDirSpares(s.disk, r.disk, g, s.chains, 0, 2);
  }

  // A new disk with one file, one byte written to it, and the file unlinked again.
  ghost predicate WrittenAndGone(s: State, s1: State, s2: State, s3: State, g: Geometry, n: nat, x: byte, k: nat) {
    && NewDisk(s, g) && Consistent(s1, g) && Consistent(s2, g) && Consistent(s3, g)
    && CreateDone(s, s1, g, 0, A_NAME, 2, true)
    && 0 in TreeOf(s1, g) && FileWritten(s1, s2, g, 0, A_NAME, 2, 0, 2, n, 0, [x], 1, true)
    && 0 in TreeOf(s2, g) && UnlinkDone(s2, s3, g, 0, A_NAME, true, k, true)
  }

  // Names are unique in all of these states.
  lemma AllTidy(s: State, s1: State, s2: State, s3: State, s4: State, g: Geometry, n: nat, x: byte, k: nat)
    requires WrittenAndGone(s, s1, s2, s3, g, n, x, k)
    requires Consistent(s4, g) && 0 in TreeOf(s3, g) && CreateDone(s3, s4, g, 0, B_NAME, 2, true)
    ensures AllUnique(s1, g) && AllUnique(s2, g) && AllUnique(s3, g) && AllUnique(s4, g)
  {
    hide Consistent, TreeOf, AllUnique, Blank, FreeSet, CreateDone, FileWritten, UnlinkDone;
    var ss := [s, s1, s2, s3, s4];
    var ops := [CreateOp(0, A_NAME, 2), WriteOp(0, A_NAME, 2, 0, 2, n, 0, [x], 1), UnlinkOp(0, A_NAME, true, k),
                CreateOp(0, B_NAME, 2)];
    ShapedOf(s, g);
    assert 0 in TreeOf(s, g);
    assert forall i :: 0 <= i < |ops| ==> Does(ss[i], ss[i + 1], g, ops[i], true);
    NamesStayUnique(ss, ops, g);
    assert AllUnique(ss[1], g) && AllUnique(ss[2], g) && AllUnique(ss[3], g) && AllUnique(ss[4], g);
  }

  // After the unlink the root has only vacant slots, everything is free, and the byte that
  // was written is still in cluster 2.
  lemma AfterGone(s: State, s1: State, s2: State, s3: State, g: Geometry, n: nat, x: byte, k: nat)
    requires WrittenAndGone(s, s1, s2, s3, g, n, x, k)
    ensures OnDisk(s3.disk, g) && g.IsCluster(2) && ClusterBytes(s3.disk, g, 2)[0] == x
    ensures s3.chains == map[] && s3.dirs == {} && FirstFree(s3.t, Limit(g), 2) == 2
    ensures 0 in TreeOf(s3, g) && HasRoom(TreeOf(s3, g)[0], B_NAME) && FirstMatch(Vacant, TreeOf(s3, g)[0]) == 0
  {
    hide TreeOf, AllUnique, Blank, FreeSet, FilesKept, FirstFree, FirstMatch, SlotFilled, NewEntry, OnlyDir;
    hide CreateDone, FreeFrom;
    hide WellFormed, Laid, Owned, CacheAgrees, Grown, Span, FileBytes, Stored, NeededClusters, UniqueNames;
    hide ClusterBytes, WithSize;
    hide HasRoom, Deleted, PutSlot, FirstCluster;
    AfterFirst(s, s1, g, A_NAME, 2);
    SmallWrite(s1, s2, g, 2, 0, [x], 1);
    SparesCluster(s2, s3, g);
    OneEntry(TreeOf(s, g)[0], A_NAME, 2, A_NAME);
    var v := TreeOf(s, g)[0];
    var v1 := PutSlot(v, 0, NewEntry(A_NAME, ATTR_FILE, 2));
    var v2 := PutSlot(v1, 0, WithSize(v1[0], 2, 1));
    assert TreeOf(s2, g)[0] == v2;
    Resized(v, n);
    assert k == 0 && FirstCluster(v2[0]) == 2;
    GoneTree(s2, s3, g, v2);
    VacantAgain(v, B_NAME);
    FreeAgain(s2, s3, g);
  }

  lemma Resized(v: seq<Slot>, n: nat)
    requires Blank(v, 512)
    ensures var v1 := PutSlot(v, 0, NewEntry(A_NAME, ATTR_FILE, 2));
            var v2 := PutSlot(v1, 0, WithSize(v1[0], 2, 1));
            FirstMatch(Named(A_NAME), v2) == 0 && FirstCluster(v2[0]) == 2
  {
    hide FirstMatch, NewEntry, WithSize, FirstCluster, IsDirectory;
    OneEntry(v, A_NAME, 2, A_NAME);
    ResizedLookup(PutSlot(v, 0, NewEntry(A_NAME, ATTR_FILE, 2)), 0, 2, 1);
  }

  lemma GoneTree(s2: State, s3: State, g: Geometry, v2: seq<Slot>)
    requires Consistent(s2, g) && Consistent(s3, g) && TreeOf(s2, g) == map[0 := v2] && |v2| > 0
    requires FirstCluster(v2[0]) == 2 && Removed(s2, s3, g, 0, 0)
    ensures 0 in TreeOf(s3, g) && TreeOf(s3, g)[0] == PutSlot(v2, 0, Deleted(v2[0]))
  {
    hide TreeOf, WellFormed, Owned, CacheAgrees, Laid, FreeSet, FreeFrom, Deleted, PutSlot, FirstCluster;
  }

  lemma VacantAgain(v: seq<Slot>, y: seq<byte>)
    requires Blank(v, 512)
    ensures var v1 := PutSlot(v, 0, NewEntry(A_NAME, ATTR_FILE, 2));
            var v2 := PutSlot(v1, 0, WithSize(v1[0], 2, 1));
            var v3 := PutSlot(v2, 0, Deleted(v2[0]));
            HasRoom(v3, y) && FirstMatch(Vacant, v3) == 0
  {
    hide FirstMatch, NewEntry, WithSize;
    var v1 := PutSlot(v, 0, NewEntry(A_NAME, ATTR_FILE, 2));
    var v2 := PutSlot(v1, 0, WithSize(v1[0], 2, 1));
    var v3 := PutSlot(v2, 0, Deleted(v2[0]));
    FirstMatchIs(Vacant, v3, 0);
    FirstMatchIs(Named(y), v3, 512);
  }

  lemma FreeAgain(s2: State, s3: State, g: Geometry)
    requires Consistent(s2, g) && Consistent(s3, g) && g.IsCluster(2) && s2.chains == map[2 := [2]]
    requires FreeSet(s3.t, Limit(g)) == FreeSet(s2.t, Limit(g)) + Elements(s2.chains[2])
    ensures FirstFree(s3.t, Limit(g), 2) == 2
  {
    hide TreeOf, WellFormed, Owned, CacheAgrees, Laid;
    assert [2][0] == 2;
    assert 2 in Elements(s2.chains[2]);
    assert 2 in FreeSet(s3.t, Limit(g));
  }

  /** A file is created, one byte x written to it, and the file unlinked.  A new file gets its
      cluster; one byte y written at offset 1 of it leaves the deleted file's x in front. */
  lemma DeletedBytesShow(s: State, s1: State, s2: State, s3: State, s4: State, r: State, g: Geometry, n: nat, m: nat,
                         x: byte, y: byte, k: nat, b: u16)
    requires WrittenAndGone(s, s1, s2, s3, g, n, x, k) && 0 in TreeOf(s3, g)
    requires Consistent(s4, g) && CreateDone(s3, s4, g, 0, B_NAME, b, true)
    requires 0 in TreeOf(s4, g) && Shaped(r, g) && FileWritten(s4, r, g, 0, B_NAME, b, 0, b, m, 1, [y], 1, true)
    ensures b == 2 && 0 in TreeOf(r, g) && FileAt(r, g, 0, B_NAME) == Some([x, y])
  {
    hide TreeOf, AllUnique, Blank, FreeSet, FilesKept, FirstFree, FirstMatch, SlotFilled, NewEntry, OnlyDir, FreeFrom;
    hide FileAt;
    hide WellFormed, Laid, Owned, CacheAgrees, Grown, Span, FileBytes, Stored, NeededClusters, UniqueNames;
    hide ClusterBytes, WithSize;
    hide HasRoom, PutSlot, FirstCluster, IsDirectory, NewDisk, UnlinkDone, Outcome, Content;
    AfterGone(s, s1, s2, s3, g, n, x, k);
    assert b == 2;
    AllTidy(s, s1, s2, s3, s4, g, n, x, k);
    var v3 := TreeOf(s3, g)[0];
    UniqueAt(s3, g, 0);
    BEntry(v3);
    assert TreeOf(s4, g)[0] == PutSlot(v3, 0, NewEntry(B_NAME, ATTR_FILE, 2));
    SparesCluster(s3, s4, g);
    FourPerCluster(s, g);
    SmallWrite(s4, r, g, 2, 1, [y], 1);
    WriteIsMapUpdate(s4, r, g, 0, B_NAME, 2, 2, 0, 1, [y], 1);
    NoContent(s4, g, 2);
    OneCluster(s4.disk, g, 2);
    GapByte(ClusterBytes(s4.disk, g, 2), x, y);
  }

  lemma FourPerCluster(s: State, g: Geometry)
    requires NewDisk(s, g)
    ensures g.sectorsPerCluster == 4
  {
  }

  lemma BEntry(v: seq<Slot>)
    requires UniqueNames(v) && HasRoom(v, B_NAME) && FirstMatch(Vacant, v) == 0
    ensures |v| > 0
    ensures var w := PutSlot(v, 0, NewEntry(B_NAME, ATTR_FILE, 2));
            |w| == |v| && FirstMatch(Named(B_NAME), w) == 0 && !IsDirectory(w[0])
  {
    hide FirstMatch, UniqueNames, FirstCluster;
    var e := NewEntry(B_NAME, ATTR_FILE, 2);
    hide NewEntry;
    EntryOf(e, B_NAME);
    CreatedLookup(v, e);
  }

  lemma GapByte(clusters: seq<byte>, x: byte, y: byte)
    requires |clusters| > 1 && clusters[0] == x
    ensures Outcome([], clusters, 1, [y][..1]) == [x, y]
  {
  }
}
