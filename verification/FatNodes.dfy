/**
 Open files of the FAT driver across calls: what fat_node_write stored is what a later
 fat_node_read returns, and nodes stay live while other files come, grow and go.
 */
module FatNodes {
  import opened FatTable
  import opened FatGeometry
  import opened FatData
  import opened FatIo
  import opened FatNames
  import opened FatDir
  import opened FatFs
  import opened FatState
  import opened FatOps
  import opened FatTheorems
  import opened FatVolume

  // ---------------------------------------------------------------- reading back

  /** Whatever the disk does, the bytes that fat_node_write counted are in the chain, where
      the offset says. */
  lemma StoredBytes(s: State, r: State, g: Geometry, first: u16, c: u16, offset: nat, data: seq<byte>, written: nat,
                    reliable: bool)
    requires Consistent(s, g) && Shaped(r, g) && WriteDone(s, r, g, first, c, offset, data, written, reliable)
    ensures c in r.chains && written <= |data|
    ensures written > 0 ==> && offset + written <= |FileBytes(r.disk, g, r.chains[c])|
                            && FileBytes(r.disk, g, r.chains[c])[offset..offset + written] == data[..written]
  {
    hide TreeOf, Owned, CacheAgrees, FilesKept, FileBytes, Span, FirstFree, Grown, NeededClusters, WellFormed;
    hide Overwrite;
  }

  /** Write, then read what was written: whatever the node is called and the disk does, the
      driver returns a prefix of the stored part of the data, and all of it on a disk that
      works, for every offset and whether or not the file had a cluster before. */
  method WriteThenRead(v: Volume, node: FileNode, offset: nat, data: seq<byte>) returns (written: int, back: seq<byte>)
    requires v.Valid() && v.Open(node) && v.IsOpenDir(node.dir) && IsCString(node.name) && offset < TWO_32
    modifies v, v.fat, v.fat.table, v.disk, node
    ensures v.Intact() && v.Open(node)
    ensures written >= 0 ==> |back| <= written <= |data| && back == data[..|back|]
    ensures written >= 0 && old(v.disk.Reliable()) ==> |back| == written
    ensures written < 0 ==> back == []
  {
    hide TreeOf, Owned, WellFormed, FatCopy, Encode, CacheAgrees, ToFat, Laid, FileBytes, Span, FirstFree;
    hide EntryUpdated, LiveAt;
    hide Grown, NeededClusters, FilesKept, WriteDone, Singly, Consistent, UniqueNames;
    ghost var s := v.S();
    ghost var first := node.first;
    written := v.Write(node, offset, data);
    back := [];
    if written >= 0 {
      ghost var r := v.S();
      StoredBytes(s, r, v.g, first, node.first, offset, data, written, old(v.disk.Reliable()));
      WriteBound(s, r, v.g, first, node.first, offset, data, written, old(v.disk.Reliable()));
      back := v.Read(node, offset, written);
      if back != [] {
        ReadBack(r, v.g, node.first, offset, data, written, back);
      }
    }
  }

  // What is read of stored bytes is a prefix of them.
  lemma ReadBack(r: State, g: Geometry, c: u16, offset: nat, data: seq<byte>, written: nat, back: seq<byte>)
    requires Shaped(r, g) && c in r.chains && |back| <= written <= |data|
    requires var f := FileBytes(r.disk, g, r.chains[c]);
             offset + written <= |f| && f[offset..offset + written] == data[..written]
             && back == f[offset..offset + |back|]
    ensures back == data[..|back|]
  {
    hide TreeOf, WellFormed, FileBytes;
    var f := FileBytes(r.disk, g, r.chains[c]);
    assert f[offset..offset + written][..|back|] == f[offset..offset + |back|];
    assert data[..written][..|back|] == data[..|back|];
  }

  /** Look a file up and read all of it: on a disk that works this is what the name stands
      for in the directory. */
  method FindThenRead(v: Volume, d: u16, name: seq<byte>) returns (data: Option<seq<byte>>)
    requires v.Valid() && v.IsOpenDir(d) && IsCString(name) && v.disk.Reliable()
    modifies v.disk`clock
    ensures v.Valid() && v.S() == old(v.S()) && data == FileAt(v.S(), v.g, d, ToFat(name))
  {
    hide TreeOf, Owned, WellFormed, FatCopy, Encode, CacheAgrees, ToFat, Laid, FileBytes, Span, FirstMatch, Matches;
    hide Reopens;
    hide FirstCluster, FileSize, IsDirectory, LiveAt, ToStr, UniqueNames;
    var child;
    ghost var k;
    child, k := v.FindNode(d, name, true);
    match child
    case Missing => data := None;
    case Subdir(first) => data := None;
    case Found(node) =>
      var bytes := v.Read(node, 0, node.size);
      WholeFile(v.S(), v.g, node.first, node.size, bytes);
      data := Some(bytes);
  }

  // What a read of the whole file returns is its contents.
  lemma WholeFile(s: State, g: Geometry, first: u16, size: nat, bytes: seq<byte>)
    requires Shaped(s, g) && OpenAt(s, first, size) && (size == 0 ==> bytes == [])
    requires size > 0 ==> && first in s.chains && |bytes| == Moved(size, 0, Span(|s.chains[first]|, g.ClusterSize()))
                          && (bytes != [] ==> bytes == FileBytes(s.disk, g, s.chains[first])[0..|bytes|])
    ensures bytes == Content(s, g, first, size)
  {
    hide TreeOf, WellFormed, FileBytes, Span;
  }

  // At most n bytes of f from byte o on.
  function Part(f: seq<byte>, o: nat, n: nat): seq<byte> {
    f[Min(o, |f|)..Min(o + n, |f|)]
  }

  /** Read a part of an open file: on a disk that works, exactly the bytes of the file that lie
      there, none behind its end, as long as the 32-bit sum of offset and size does not wrap. */
  method ReadPart(v: Volume, node: FileNode, offset: nat, size: nat) returns (data: seq<byte>)
    requires v.Intact() && v.Open(node) && v.disk.Reliable() && offset < TWO_32 && size < TWO_32
    requires offset + size < TWO_32 || offset >= node.size
    modifies v.disk`clock
    ensures v.S() == old(v.S()) && data == Part(Content(v.S(), v.g, node.first, node.size), offset, size)
  {
    hide TreeOf, Owned, WellFormed, FatCopy, Encode, CacheAgrees, Laid, FileBytes, Span, Moved, ReadLength, Part;
    data := v.Read(node, offset, size);
    PartRead(v.S(), v.g, node.first, node.size, offset, size, data);
  }

  lemma PartRead(s: State, g: Geometry, first: u16, fileSize: nat, offset: nat, size: nat, data: seq<byte>)
    requires Shaped(s, g) && OpenAt(s, first, fileSize) && fileSize < TWO_32 && offset < TWO_32 && size < TWO_32
    requires offset + size < TWO_32 || offset >= fileSize
    requires offset >= fileSize ==> data == []
    requires offset < fileSize ==>
               && first in s.chains
               && |data| == Moved(ReadLength(fileSize, offset, size), offset, Span(|s.chains[first]|, g.ClusterSize()))
    requires data != [] ==>
               && offset < fileSize && offset + |data| <= |FileBytes(s.disk, g, s.chains[first])|
               && data == FileBytes(s.disk, g, s.chains[first])[offset..offset + |data|]
    ensures data == Part(Content(s, g, first, fileSize), offset, size)
  {
    hide TreeOf, WellFormed, FileBytes, Span, Moved, ReadLength, Part;
    if first in s.chains {
      var b := FileBytes(s.disk, g, s.chains[first]);
      if offset < fileSize {
        PartMoved(b, fileSize, offset, size, data);
      } else {
        PartBehind(b[..Min(fileSize, |b|)], offset, size);
      }
    } else {
      PartBehind([], offset, size);
    }
  }

  lemma PartBehind(f: seq<byte>, offset: nat, size: nat)
    requires offset >= |f|
    ensures Part(f, offset, size) == []
  {
  }

  lemma PartMoved(b: seq<byte>, fileSize: nat, offset: nat, size: nat, data: seq<byte>)
    requires offset < fileSize && offset + size < TWO_32
    requires |data| == Moved(ReadLength(fileSize, offset, size), offset, |b|)
    requires data != [] ==> offset + |data| <= |b| && data == b[offset..offset + |data|]
    ensures data == Part(b[..Min(fileSize, |b|)], offset, size)
  {
    assert (offset + size) % TWO_32 == offset + size;
    var f := b[..Min(fileSize, |b|)];
    if offset < |f| {
      assert |data| == Min(offset + size, |f|) - offset;
      assert f[offset..offset + |data|] == b[offset..offset + |data|];
    } else {
      assert data == [];
    }
  }

  // ---------------------------------------------------------------- one owner

  // No entry but entry k of directory d has this chain.
  ghost predicate OnlyOwner(v: map<u16, seq<Slot>>, d: u16, k: nat, first: u16) {
    forall b, j: nat :: Owns(v, b, j) && FirstCluster(v[b][j]) == first ==> b == d && j == k
  }

  /** Told before the call: on a disk that works a write keeps the volume's invariant if and
      only if it stores nothing, or no entry goes by the node's name, or the first entry that
      does is no directory's and no other entry has the node's chain. */
  lemma WriteKeepsOwners(s: State, r: State, g: Geometry, d: u16, name: seq<byte>, first: u16, size: nat, c: u16,
                         n: nat, offset: nat, data: seq<byte>, written: int)
    requires Consistent(s, g) && Sound(r, g) && d in TreeOf(s, g) && IsName(name) && OpenAt(s, first, size)
    requires FileWritten(s, r, g, d, name, first, size, c, n, offset, data, written, true)
    ensures var v := TreeOf(s, g);
            var k := FirstMatch(Named(name), v[d]);
            Consistent(r, g) <==> written <= 0 || k == |v[d]|
                                  || (!IsDirectory(v[d][k]) && (first != 0 ==> OnlyOwner(v, d, k, first)))
  {
    hide TreeOf, WellFormed, CacheAgrees, FilesKept, FirstFree, Laid, Grown, Span, FileBytes, Stored, WithSize;
    hide FirstMatch, PutSlot;
    hide Owned, NeededClusters, IsDirectory, FirstCluster, SlotResized;
    if written >= 0 {
      var v := TreeOf(s, g);
      var k := FirstMatch(Named(name), v[d]);
      WriteChains(s, r, g, first, c, offset, data, written);
      if written > 0 && k < |v[d]| {
        assert Matches(Named(name), v[d][k]);
        assert NameOf(v[d][k])[0] == name[0];
        OwnedResized(v, r.chains.Keys, r.dirs, d, k, c, n);
      }
    }
  }

  // The chains after a write: the file's own, and the others; none gained an owner.
  lemma WriteChains(s: State, r: State, g: Geometry, first: u16, c: u16, offset: nat, data: seq<byte>, written: nat)
    requires Consistent(s, g) && Shaped(r, g) && (first != 0 ==> first in s.chains)
    requires WriteDone(s, r, g, first, c, offset, data, written, true)
    ensures Owned(TreeOf(s, g), r.chains.Keys, r.dirs) && c in r.chains && c !in r.dirs && c != 0
    ensures first == 0 ==> NoOwner(TreeOf(s, g), c)
  {
    hide TreeOf, WellFormed, CacheAgrees, FilesKept, FirstFree, Laid, Span, FileBytes, Stored, Extended, Owned;
    hide NeededClusters, NoOwner;
    if first == 0 {
      OwnedGrow(TreeOf(s, g), s.chains.Keys, s.dirs, c);
      assert r.chains.Keys == s.chains.Keys + {c};
    } else {
      assert r.chains.Keys == s.chains.Keys;
    }
  }

  // ---------------------------------------------------------------- other nodes stay live

  // Another entry, under another name or in another directory, leaves the node's entries.
  lemma FitsElsewhere(v: map<u16, seq<Slot>>, w: map<u16, seq<Slot>>, d: u16, k: nat, e: Slot, b: u16, x: seq<byte>,
                      first: u16)
    requires d in v && b in v && k < |v[d]| && w == v[d := PutSlot(v[d], k, e)]
    requires b != d || !Matches(Named(x), e)
    requires FitsIn(v[b], x, first)
    ensures b in w && FitsIn(w[b], x, first)
  {
    hide IsValidEntry, NameOf, FirstCluster, IsDirectory;
  }

  /** Creating another file keeps a node live, on any disk. */
  lemma CreateSpares(s: State, r: State, g: Geometry, d: u16, name: seq<byte>, c: u16, reliable: bool, b: u16,
                     x: seq<byte>, first: u16, size: nat)
    requires Consistent(s, g) && Consistent(r, g) && d in TreeOf(s, g) && |name| == 11
    requires CreateDone(s, r, g, d, name, c, reliable) && LiveAt(s, g, b, x, first, size) && (b != d || x != name)
    ensures LiveAt(r, g, b, x, first, size)
  {
    hide TreeOf, WellFormed, Owned, CacheAgrees, FilesKept, FirstFree, NewEntry, Laid, FitsIn, CanCreate, Entered;
    hide Matches, PutSlot, IsVacant;
    if c != 0 && TreeOf(r, g) != TreeOf(s, g) {
      var v, e := TreeOf(s, g), NewEntry(name, ATTR_FILE, c);
      var k: nat :| k < |v[d]| && IsVacant(v[d][k]) && TreeOf(r, g) == v[d := PutSlot(v[d], k, e)];
      if b == d {
        NamedOtherwise(e, x);
      }
      FitsElsewhere(v, TreeOf(r, g), d, k, e, b, x, first);
    }
  }

  lemma NamedOtherwise(e: Slot, x: seq<byte>)
    requires NameOf(e) != x
    ensures !Matches(Named(x), e)
  {
  }

  /** So does making a directory. */
  lemma MkdirSpares(s: State, r: State, g: Geometry, d: u16, name: seq<byte>, c: u16, reliable: bool, b: u16,
                    x: seq<byte>, first: u16, size: nat)
    requires Consistent(s, g) && Consistent(r, g) && d in TreeOf(s, g) && |name| == 11
    requires MkdirDone(s, r, g, d, name, c, reliable) && LiveAt(s, g, b, x, first, size) && (b != d || x != name)
    ensures LiveAt(r, g, b, x, first, size)
  {
    hide TreeOf, WellFormed, Owned, CacheAgrees, FilesKept, FirstFree, NewEntry, Laid, FitsIn, CanCreate, Entered;
    hide Matches, PutSlot, IsVacant, DirImageSlots;
    if c != 0 {
      NewDirIsNew(s, g, c);
      var v, e := TreeOf(s, g)[c := DirImageSlots(g, c, d)], NewEntry(name, ATTR_DIRECTORY, c);
      if TreeOf(r, g) != v {
        var k: nat :| k < |v[d]| && IsVacant(v[d][k]) && TreeOf(r, g) == v[d := PutSlot(v[d], k, e)];
        if b == d {
          NamedOtherwise(e, x);
        }
        FitsElsewhere(v, TreeOf(r, g), d, k, e, b, x, first);
      }
    }
  }

  lemma NewDirIsNew(s: State, g: Geometry, c: u16)
    requires Consistent(s, g) && c !in s.chains && c != 0
    ensures c !in TreeOf(s, g)
  {
    hide TreeOf, WellFormed, Owned, CacheAgrees;
  }

  /** So does writing another file. */
  lemma WriteSpares(s: State, r: State, g: Geometry, d: u16, name: seq<byte>, first: u16, size: nat, c: u16, n: nat,
                    offset: nat, data: seq<byte>, written: int, reliable: bool, b: u16, x: seq<byte>, f: u16, m: nat)
    requires Consistent(s, g) && Consistent(r, g) && d in TreeOf(s, g)
    requires FileWritten(s, r, g, d, name, first, size, c, n, offset, data, written, reliable)
    requires LiveAt(s, g, b, x, f, m) && (b != d || x != name)
    ensures LiveAt(r, g, b, x, f, m)
  {
    hide TreeOf, WellFormed, Owned, CacheAgrees, FilesKept, FirstFree, Laid, FitsIn, Matches, PutSlot, Span;
    hide FileBytes, WithSize, Extended, NeededClusters, FirstMatch, NameOf;
    if written >= 0 && TreeOf(r, g) != TreeOf(s, g) {
      var v := TreeOf(s, g);
      var k: nat :| k < |v[d]| && Matches(Named(name), v[d][k])
                    && TreeOf(r, g) == v[d := PutSlot(v[d], k, WithSize(v[d][k], c, n))];
      MatchName(v[d][k], name);
      ResizedEntry(v[d][k], c, n);
      if b == d {
        NamedOtherwise(WithSize(v[d][k], c, n), x);
      }
      FitsElsewhere(v, TreeOf(r, g), d, k, WithSize(v[d][k], c, n), b, x, f);
    }
  }

  /** So does unlinking another file, or a directory other than the node's own, if the node's
      entry is in its directory. */
  lemma UnlinkSpares(s: State, r: State, g: Geometry, d: u16, name: seq<byte>, ok: bool, k: nat, reliable: bool,
                     b: u16, x: seq<byte>, first: u16, size: nat)
    requires Consistent(s, g) && Consistent(r, g) && d in TreeOf(s, g) && IsName(name) && IsName(x)
    requires UnlinkDone(s, r, g, d, name, ok, k, reliable) && LiveAt(s, g, b, x, first, size) && (b != d || x != name)
    requires FirstMatch(Named(x), TreeOf(s, g)[b]) < |TreeOf(s, g)[b]| && b in TreeOf(r, g)
    ensures LiveAt(r, g, b, x, first, size)
  {
    hide TreeOf, WellFormed, Owned, CacheAgrees, FilesKept, FirstMatch, Laid, FreeFrom, FreeSet, NameOf, PutSlot;
    hide IsValidEntry, FirstCluster, IsDirectory, FitsIn;
    var v := TreeOf(s, g);
    if ok || TreeOf(r, g) != v {
      var e := Deleted(v[d][k]);
      FitsElsewhere(v, Struck(s, g, d, k), d, k, e, b, x, first);
      if ok && FirstCluster(v[d][k]) != 0 {
        var j := FirstMatch(Named(x), v[b]);
        OtherOwner(s, g, d, k, name, b, j, x);
        Fits(v[b], x, first, j);
      }
    }
  }

  lemma Fits(v: seq<Slot>, x: seq<byte>, first: u16, j: nat)
    requires FitsIn(v, x, first) && j < |v| && Matches(Named(x), v[j])
    ensures FirstCluster(v[j]) == first
  {
  }
}
