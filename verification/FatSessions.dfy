/**
 The FAT driver at work: lists of requests served by a mounted volume, from the format on.
 */
module FatSessions {
  import opened FatTable
  import opened FatGeometry
  import opened FatData
  import opened FatNames
  import opened FatDir
  import opened FatFs
  import opened FatState
  import opened FatOps
  import opened FatTheorems
  import opened FatVolume
  import opened FatRuns
  import opened FatFormat

  // A file or directory is named by the names on the way to its directory, and its own.
  datatype Request =
    | CreateFile(path: seq<seq<byte>>, name: seq<byte>)
    | MakeDir(path: seq<seq<byte>>, name: seq<byte>)
    | Remove(path: seq<seq<byte>>, name: seq<byte>)
    | WriteAt(path: seq<seq<byte>>, name: seq<byte>, offset: nat, data: seq<byte>)

  // The names are strings; a file to be written has no space inside a field of its name.
  ghost predicate Proper(q: Request) {
    && (forall i :: 0 <= i < |q.path| ==> IsCString(q.path[i])) && IsCString(q.name)
    && (q.WriteAt? ==> q.offset < TWO_32 && NoInnerSpace(Base(q.name), 8) && NoInnerSpace(Ext(q.name), 3))
  }

  // Follow the path from the root directory.
  method OpenDir(v: Volume, path: seq<seq<byte>>) returns (ok: bool, d: u16)
    requires v.Valid() && forall i :: 0 <= i < |path| ==> IsCString(path[i])
    modifies v.disk`clock
    ensures v.S() == old(v.S()) && (old(v.disk.Reliable()) ==> v.disk.Reliable())
    ensures ok ==> v.IsOpenDir(d)
  {
    hide Consistent, TreeOf, Owned, Matches, FirstMatch, ToFat, ToStr, UniqueNames, Reopens, LiveAt, OpenAt, Names;
    hide IsCString;
    d := 0;
    ok := true;
    for i := 0 to |path|
      invariant v.Valid() && v.S() == old(v.S()) && v.IsOpenDir(d) && (old(v.disk.Reliable()) ==> v.disk.Reliable())
    {
      var child;
      ghost var k;
      child, k := v.FindNode(d, path[i], true);
      if !child.Subdir? {
        return false, 0;
      }
      d := child.first;
    }
  }

  // What one request did: one operation, or nothing.
  ghost predicate Served(s: State, r: State, g: Geometry, done: seq<Op>, reliable: bool)
    requires Consistent(s, g) && Consistent(r, g)
  {
    if |done| == 0 then r == s else |done| == 1 && Does(s, r, g, done[0], reliable)
  }

  /** Find a file, and write to it. */
  method WriteNamed(v: Volume, d: u16, name: seq<byte>, offset: nat, data: seq<byte>) returns (ghost done: seq<Op>)
    requires v.Valid() && v.IsOpenDir(d) && v.disk.Reliable() && AllUnique(v.S(), v.g)
    requires IsCString(name) && offset < TWO_32 && NoInnerSpace(Base(name), 8) && NoInnerSpace(Ext(name), 3)
    modifies v, v.fat, v.fat.table, v.disk
    ensures v.Valid() && v.disk.Reliable() && Served(old(v.S()), v.S(), v.g, done, true)
  {
    hide TreeOf, Owned, WellFormed, CacheAgrees, Matches, FirstMatch, ToFat, ToStr, UniqueNames, OpenAt, IsCString;
    hide Laid, LiveAt;
    hide NoInnerSpace, Base, Ext, FileWritten, Singly;
    ghost var s := v.S();
    var child;
    ghost var k;
    child, k := v.FindNode(d, name, true);
    if !child.Found? {
      return [];
    }
    var node := child.node;
    ghost var first, size := node.first, node.size;
    NameRoundTrip(name);
    NeverDotOrNul(name);
    var written := v.Write(node, offset, data);
    done := [WriteOp(d, ToFat(node.name), first, size, node.first, node.size, offset, data, written)];
    assert Does(s, v.S(), v.g, done[0], true);
  }

  /** Serve one request. */
  method Serve(v: Volume, q: Request) returns (ghost done: seq<Op>)
    requires v.Valid() && Proper(q) && (q.WriteAt? ==> v.disk.Reliable() && AllUnique(v.S(), v.g))
    modifies v, v.fat, v.fat.table, v.disk
    ensures v.Valid() && Served(old(v.S()), v.S(), v.g, done, old(v.disk.Reliable()))
    ensures old(v.disk.Reliable()) ==> v.disk.Reliable()
  {
    hide TreeOf, Owned, WellFormed, CacheAgrees, Laid, ToFat, FirstMatch, CreateDone, MkdirDone, UnlinkDone;
    hide FileWritten, UniqueNames;
    hide IsCString, NoInnerSpace, Base, Ext, FirstFree, Entered, AllUnique;
    ghost var s := v.S();
    var ok, d := OpenDir(v, q.path);
    if !ok {
      return [];
    }
    NeverDotOrNul(q.name);
    ghost var now := v.disk.Reliable();
    match q {
      case CreateFile(path, name) =>
        var first := v.Create(d, name);
        done := [CreateOp(d, ToFat(name), first)];
      case MakeDir(path, name) =>
        var node;
        ghost var first;
        node, first := v.Mkdir(d, name, true);
        done := [MkdirOp(d, ToFat(name), first)];
      case Remove(path, name) =>
        ghost var k;
        ok, k := v.Unlink(d, name);
        done := [UnlinkOp(d, ToFat(name), ok, k)];
      case WriteAt(path, name, offset, data) =>
        done := WriteNamed(v, d, name, offset, data);
    }
    if now && !old(v.disk.Reliable()) && |done| == 1 {
      DoesWeaker(s, v.S(), v.g, done[0]);
    }
  }

  /** Serve a list of requests: the volume stays valid and goes through a run of the driver's
      operations, so that every cluster stays accounted for, whatever the disk does, and on
      a disk that works names stay unique.  Writes are for a disk that works. */
  method Perform(v: Volume, requests: seq<Request>) returns (ghost ss: seq<State>, ghost ops: seq<Op>)
    requires v.Valid() && forall i :: 0 <= i < |requests| ==> Proper(requests[i])
    requires (forall i :: 0 <= i < |requests| ==> !requests[i].WriteAt?) || (v.disk.Reliable() && AllUnique(v.S(), v.g))
    modifies v, v.fat, v.fat.table, v.disk
    ensures v.Valid() && IsRun(ss, ops, v.g, old(v.disk.Reliable())) && ss[0] == old(v.S()) && ss[|ops|] == v.S()
    ensures old(v.disk.Reliable() && AllUnique(v.S(), v.g)) ==> AllUnique(v.S(), v.g)
    ensures old(Accounted(v.S(), v.g)) ==> Accounted(v.S(), v.g)
  {
    hide TreeOf, Owned, WellFormed, CacheAgrees, Laid, AllUnique, Accounted, Does, Proper, Consistent;
    ghost var reliable := v.disk.Reliable();
    ghost var tidy := reliable && AllUnique(v.S(), v.g);
    ss, ops := [v.S()], [];
    for i := 0 to |requests|
      invariant v.Valid() && IsRun(ss, ops, v.g, reliable) && ss[0] == old(v.S()) && ss[|ops|] == v.S()
      invariant reliable ==> v.disk.Reliable()
      invariant tidy ==> AllUnique(v.S(), v.g)
    {
      ghost var s := v.S();
      ghost var works := v.disk.Reliable();
      ghost var done := Serve(v, requests[i]);
      if |done| == 1 {
        if works && !reliable {
          DoesWeaker(s, v.S(), v.g, done[0]);
        }
        LongerRun(ss, ops, v.g, reliable, v.S(), done[0]);
        if tidy {
          ReliableIsFresh(s, v.S(), v.g, done[0]);
          OpUnique(s, v.S(), v.g, done[0], true);
        }
        ss, ops := ss + [v.S()], ops + done;
      }
    }
    if old(Accounted(v.S(), v.g)) {
      NoClusterLost(ss, ops, v.g, reliable);
    }
  }

  lemma LongerRun(ss: seq<State>, ops: seq<Op>, g: Geometry, reliable: bool, r: State, op: Op)
    requires IsRun(ss, ops, g, reliable) && Consistent(r, g) && Does(ss[|ops|], r, g, op, reliable)
    ensures IsRun(ss + [r], ops + [op], g, reliable)
  {
    hide Consistent, Does;
    var s1, o1 := ss + [r], ops + [op];
    forall i | 0 <= i < |o1|
      ensures Does(s1[i], s1[i + 1], g, o1[i], reliable)
    {
      if i < |ops| {
        assert Does(ss[i], ss[i + 1], g, ops[i], reliable);
      }
    }
  }

  // ---------------------------------------------------------------- from the format on

  /** From any formatted disk on, in every run and whatever the disk does, each cluster is
      free and on no chain, or used and on exactly one. */
  lemma NoClusterLostSinceFormat(diskSize: nat, rest: Sector, before: seq<Sector>, ss: seq<State>, ops: seq<Op>,
                                 reliable: bool)
    requires GoodSize(diskSize) && |before| == FormatLayout(diskSize).totalSectors
    requires IsRun(ss, ops, MountedGeometry(diskSize), reliable) && ss[0] == EmptyVolume(diskSize, rest, before)
    ensures var g, s := MountedGeometry(diskSize), ss[|ops|];
            && Limit(g) <= |s.t|
            && forall c: u16 :: 2 <= c < Limit(g) ==>
                 && (OnChain(s.chains, c) <==> s.t[c] != FREE)
                 && forall a, b :: a in s.chains && b in s.chains && c in s.chains[a] && c in s.chains[b] ==> a == b
  {
    hide GoodSize, FormatLayout, FormattedImage, MountedGeometry, AllUnique, TreeOf, FileAt, FatCopy, Encode;
    hide Consistent, FreeSet;
    hide FreshTable, Blank, Does, Accounted, OnChain;
    FormattedMounts(diskSize, rest, before);
    var g := MountedGeometry(diskSize);
    ShapedOf(ss[0], g);
    ShapedOf(ss[|ops|], g);
    FormattedAccounted(ss[0], g);
    NoClusterLost(ss, ops, g, reliable);
  }

  /** Names are unique in every state of a run if and only if every name entered was unused
      or starts with the deletion mark, and so they are on a disk that does not fail. */
  lemma NamesUniqueSinceFormat(diskSize: nat, rest: Sector, before: seq<Sector>, ss: seq<State>, ops: seq<Op>,
                               reliable: bool)
    requires GoodSize(diskSize) && |before| == FormatLayout(diskSize).totalSectors
    requires IsRun(ss, ops, MountedGeometry(diskSize), reliable) && ss[0] == EmptyVolume(diskSize, rest, before)
    ensures var g := MountedGeometry(diskSize);
            && ((forall i :: 0 <= i <= |ops| ==> AllUnique(ss[i], g))
                <==> (forall i :: 0 <= i < |ops| ==> FreshAt(ss, ops, g, i)))
            && (reliable ==> forall i :: 0 <= i <= |ops| ==> AllUnique(ss[i], g))
  {
    hide GoodSize, FormatLayout, FormattedImage, MountedGeometry, AllUnique, TreeOf, FileAt, FatCopy, Encode;
    hide Consistent, FreeSet;
    hide FreshTable, Blank, Does, FreshAt;
    FormattedMounts(diskSize, rest, before);
    NamesUniqueIff(ss, ops, MountedGeometry(diskSize), reliable);
    if reliable {
      NamesStayUnique(ss, ops, MountedGeometry(diskSize));
    }
  }

  /** After every run on a disk that does not fail, mounting the disk gives the volume as it
      is, files and all: the boot sector still gives the geometry, and what the first FAT and
      the directories on the disk say is what the driver has in memory. */
  lemma RemountSinceFormat(diskSize: nat, rest: Sector, before: seq<Sector>, ss: seq<State>, ops: seq<Op>)
    requires GoodSize(diskSize) && |before| == FormatLayout(diskSize).totalSectors
    requires IsRun(ss, ops, MountedGeometry(diskSize), true) && ss[0] == EmptyVolume(diskSize, rest, before)
    ensures var g, s := MountedGeometry(diskSize), ss[|ops|];
            && OnDisk(s.disk, g) && HoldsVolume(s.disk, g, s.chains, s.dirs) && Boots(s.disk, g)
            && OnImage(s.disk, g, s.chains, s.dirs) == s
  {
    hide GoodSize, FormatLayout, FormattedImage, MountedGeometry, AllUnique, TreeOf, FileAt, FatCopy, Encode, FreeSet;
    hide Owned;
    hide FreshTable, Blank, Does, Signed, ReadBoot, MountLayout, Decode, Shaped, CacheAgrees;
    var g, s := MountedGeometry(diskSize), ss[|ops|];
    FormattedMounts(diskSize, rest, before);
    RunStaysClean(ss, ops, g);
    BehindBoot(diskSize);
    assert Consistent(s, g);
    CleanIsOnImage(s, g);
  }

  lemma BehindBoot(diskSize: nat)
    requires GoodSize(diskSize)
    ensures MountedGeometry(diskSize).fatStart == 1
  {
    hide FormatLayout;
    MountAgreesWithFormat(diskSize);
  }
}
