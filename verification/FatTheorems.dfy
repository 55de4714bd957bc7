/**
 What the FAT driver is for: a directory behaves as a map from 8.3 names to byte
 sequences.  All statements are about the relations that the methods of class `Volume`
 establish.
 */
module FatTheorems {
  import opened FatTable
  import opened FatGeometry
  import opened FatData
  import opened FatIo
  import opened FatNames
  import opened FatDir
  import opened FatFs
  import opened FatState
  import opened FatSlots
  import opened FatOps

  datatype Option<T> = None | Some(value: T)

  // ---------------------------------------------------------------- contents of a file

  function Min(a: int, b: int): int {
    if a <= b then a else b
  }

  // The bytes of the file with this first cluster and size.
  ghost function Content(s: State, g: Geometry, first: u16, size: nat): (r: seq<byte>)
    requires Shaped(s, g)
  {
    if first !in s.chains then []
    else
      var b := FileBytes(s.disk, g, s.chains[first]);
      b[..Min(size, |b|)]
  }

  // How far the chain reaches, in bytes.
  ghost function Reach(s: State, g: Geometry, c: u16): nat
    requires c in s.chains
  {
    Span(|s.chains[c]|, g.ClusterSize())
  }

  // a with x written at off, growing as needed.
  function Patch(a: seq<byte>, off: nat, x: seq<byte>): (r: seq<byte>)
    requires off <= |a|
  {
    if off + |x| <= |a| then Splice(a, off, x) else a[..off] + x
  }

  // What becomes of the file `old_` when x is stored at an offset: behind its end, what the
  // file's clusters hold there shows up between the old bytes and the new ones.
  function Outcome(old_: seq<byte>, clusters: seq<byte>, offset: nat, x: seq<byte>): (r: seq<byte>)
    requires |old_| <= |clusters|
  {
    if offset <= |old_| then Patch(old_, offset, x)
    else if offset <= |clusters| then old_ + clusters[|old_|..offset] + x
    else clusters
  }

  /** A file written behind its end reads as zeros in between if and only if its clusters
      held zeros there. */
  lemma HoleIsZeroIff(old_: seq<byte>, clusters: seq<byte>, offset: nat, x: seq<byte>)
    requires |old_| <= offset <= |clusters|
    ensures Outcome(old_, clusters, offset, x) == old_ + seq(offset - |old_|, _ => 0) + x
            <==> forall i :: |old_| <= i < offset ==> clusters[i] == 0
  {
    var zeros: seq<byte> := seq(offset - |old_|, _ => 0);
    var gap := clusters[|old_|..offset];
    var p, q := old_ + gap + x, old_ + zeros + x;
    assert Outcome(old_, clusters, offset, x) == p;
    assert p[|old_|..offset] == gap && q[|old_|..offset] == zeros;
    assert gap == zeros <==> forall i :: |old_| <= i < offset ==> clusters[i] == 0 by {
      if gap == zeros {
        forall i | |old_| <= i < offset
          ensures clusters[i] == 0
        {
          assert clusters[i] == gap[i - |old_|] == zeros[i - |old_|];
        }
      }
    }
  }

  lemma {:induction false} FileBytesPrefix(disk: seq<Sector>, g: Geometry, s: seq<u16>, j: nat)
    requires OnDisk(disk, g) && AllClusters(g, s) && j <= |s|
    ensures Span(j, g.ClusterSize()) <= Span(|s|, g.ClusterSize())
    ensures FileBytes(disk, g, s)[..Span(j, g.ClusterSize())] == FileBytes(disk, g, s[..j])
    decreases |s|
  {
    if j < |s| {
      var init := s[..|s| - 1];
      FileBytesPrefix(disk, g, init, j);
      assert init[..j] == s[..j];
      var n := Span(j, g.ClusterSize());
      assert FileBytes(disk, g, s)[..n] == FileBytes(disk, g, init)[..n];
    } else {
      assert s[..j] == s;
    }
  }

  // Overwriting a longer byte sequence, seen through a file of `size` bytes.
  lemma OverwriteIsOutcome(b: seq<byte>, size: nat, off: nat, x: seq<byte>)
    requires size <= |b|
    ensures var n := Moved(|x|, off, |b|);
            Overwrite(b, off, x)[..Min(NewSize(size, off, n), |b|)] == Outcome(b[..size], b, off, x[..n])
  {
    if off >= |b| {
      OverwriteNothing(b, size, off, x);
    } else {
      SpliceIsOutcome(b, size, off, x[..Moved(|x|, off, |b|)]);
    }
  }

  lemma OverwriteNothing(b: seq<byte>, size: nat, off: nat, x: seq<byte>)
    requires size <= |b| <= off
    ensures Overwrite(b, off, x)[..Min(NewSize(size, off, 0), |b|)] == b == Outcome(b[..size], b, off, [])
  {
    assert b[..|b|] == b;
    if off == |b| && size < off {
      assert b[..size] + b[size..off] + [] == b;
    } else if off == |b| {
      assert b[..size] == b && b[..off] + [] == b;
    }
  }

  lemma SpliceIsOutcome(b: seq<byte>, size: nat, off: nat, x: seq<byte>)
    requires size <= |b| && off + |x| <= |b|
    ensures Splice(b, off, x)[..NewSize(size, off, |x|)] == Outcome(b[..size], b, off, x)
  {
    var p, q := Splice(b, off, x)[..NewSize(size, off, |x|)], Outcome(b[..size], b, off, x);
    if off > size {
      assert b[..size] + b[size..off] == b[..off];
    } else if off + |x| <= size {
      assert q == Splice(b[..size], off, x);
    } else {
      assert b[..size][..off] == b[..off];
    }
    assert |p| == |q|;
    assert forall i :: 0 <= i < |p| ==> p[i] == q[i];
  }

  /** What a write does to the file, for every offset: the reported count is how much of the
      data the chain could take, and the file becomes the outcome of storing that much over
      its old bytes, where the clusters held what was on the disk before. */
  lemma WriteMeaning(s: State, r: State, g: Geometry, first: u16, c: u16, size: nat, offset: nat, data: seq<byte>,
                     written: nat)
    requires Consistent(s, g) && Shaped(r, g)
    requires if first == 0 then size == 0 else first in s.chains && size <= Reach(s, g, first)
    requires WriteDone(s, r, g, first, c, offset, data, written, true)
    ensures c in r.chains && written == Moved(|data|, offset, Reach(r, g, c)) <= |data|
    ensures |Content(s, g, first, size)| == size <= Reach(r, g, c)
    ensures Content(r, g, c, NewSize(size, offset, written))
            == Outcome(Content(s, g, first, size), FileBytes(s.disk, g, r.chains[c]), offset, data[..written])
  {
    hide TreeOf, Owned, CacheAgrees, FilesKept, FileBytes, Span, FirstFree, NeededClusters, IsChain, Overwrite;
    hide WellFormed;
    hide Stored, Outcome;
    var new_ := r.chains[c];
    var b := FileBytes(s.disk, g, new_);
    if first != 0 {
      OldPrefix(s, r, g, c, size, offset, data, written);
    } else {
      assert 0 !in s.chains;
      assert b[..0] == Content(s, g, first, size);
    }
    OverwriteIsOutcome(b, size, offset, data);
  }

  // The old chain is a prefix of the grown one, and so are the file's old bytes.
  lemma OldPrefix(s: State, r: State, g: Geometry, c: u16, size: nat, offset: nat, data: seq<byte>, written: nat)
    requires Consistent(s, g) && Shaped(r, g) && c in s.chains && c != 0 && size <= Reach(s, g, c)
    requires WriteDone(s, r, g, c, c, offset, data, written, true)
    ensures size <= Reach(r, g, c)
    ensures Content(s, g, c, size) == FileBytes(s.disk, g, r.chains[c])[..size]
  {
    hide TreeOf, Owned, CacheAgrees, FilesKept, FileBytes, Span, FirstFree, NeededClusters, IsChain, Overwrite;
    hide WellFormed;
    hide Stored;
    var old_, new_ := s.chains[c], r.chains[c];
    assert old_ <= new_;
    assert new_[..|old_|] == old_;
    FileBytesPrefix(s.disk, g, new_, |old_|);
    PrefixOfPrefix(FileBytes(s.disk, g, new_), Reach(s, g, c), size);
  }

  lemma PrefixOfPrefix(b: seq<byte>, n: nat, k: nat)
    requires k <= n <= |b|
    ensures b[..n][..k] == b[..k]
  {
  }

  // How many clusters the file will have after a write, from the volume before: its own,
  // one more if it had none, and then free ones up to the number needed.
  ghost function ClustersAfter(s: State, g: Geometry, first: u16, offset: nat, length: nat): nat
    requires Shaped(s, g) && (first == 0 || first in s.chains)
  {
    var free := |FreeSet(s.t, Limit(g))|;
    if first == 0 then LengthAfter(1, if free == 0 then 0 else free - 1, NeededClusters(g, offset, length))
    else LengthAfter(|s.chains[first]|, free, NeededClusters(g, offset, length))
  }

  lemma WriteLength(s: State, r: State, g: Geometry, first: u16, c: u16, offset: nat, data: seq<byte>, written: nat,
                    reliable: bool)
    requires Consistent(s, g) && Shaped(r, g) && (first == 0 || first in s.chains)
    requires WriteDone(s, r, g, first, c, offset, data, written, reliable)
    ensures c in r.chains && |r.chains[c]| == ClustersAfter(s, g, first, offset, |data|)
  {
    hide TreeOf, Owned, CacheAgrees, FilesKept, FileBytes, Stored, Span, FreeSet, NeededClusters, Extended;
    hide WellFormed, Overwrite, IsChain, Laid;
    var s0 := WithFirst(s, first, c);
    assert 0 !in s.chains by { NoZero(s, g); }
    if first == 0 {
      AllocCounts(s.t, Limit(g), c);
    }
    ChainOf(s0, g, c);
    ExtendedLength(s0.t, Limit(g), s0.chains[c], NeededClusters(g, offset, |data|));
  }

  lemma AllocCounts(t: seq<u16>, n: nat, c: u16)
    requires n <= |t| && 2 <= c < n && t[c] == FREE
    ensures |FreeSet(t[c := EOC], n)| == |FreeSet(t, n)| - 1 && |FreeSet(t, n)| > 0
  {
    assert c in FreeSet(t, n);
    assert FreeSet(t[c := EOC], n) == FreeSet(t, n) - {c};
  }

  /** The clusters asked for hold the bytes up to the end of the data, and one less would not,
      unless the 32-bit sum wraps; then they are at most as many. */
  lemma NeededIsCeiling(g: Geometry, offset: nat, length: nat)
    requires g.Valid()
    ensures var n := NeededClusters(g, offset, length);
            && (n > 0 ==> Span(n - 1, g.ClusterSize()) < offset + length)
            && (offset + length + g.ClusterSize() <= TWO_32 ==> offset + length <= Span(n, g.ClusterSize()))
  {
    hide Span;
    var cs, n := g.ClusterSize(), NeededClusters(g, offset, length);
    var x := offset + length + cs - 1;
    Rounded(x, x % TWO_32, cs);
    SpanIsProduct(n, cs);
    if n > 0 {
      SpanIsProduct(n - 1, cs);
      assert (n - 1) * cs == n * cs - cs;
    }
  }

  lemma Rounded(x: nat, y: nat, cs: nat)
    requires cs > 0 && y <= x
    ensures y / cs * cs <= x && y < y / cs * cs + cs
  {
    assert y == y / cs * cs + y % cs;
  }

  // The clusters that the file has, and the free ones, are distinct clusters of the volume.
  lemma OwnAndFree(s: State, g: Geometry, c: u16)
    requires Consistent(s, g) && c in s.chains
    ensures |s.chains[c]| + |FreeSet(s.t, Limit(g))| <= 0x10000
  {
    hide TreeOf, Owned, CacheAgrees, Laid;
    var own, free := s.chains[c], FreeSet(s.t, Limit(g));
    ChainOf(s, g, c);
    DistinctCount(own);
    forall x | x in Elements(own)
      ensures x !in free
    {
      var i :| 0 <= i < |own| && own[i] == x;
      ChainNotFree(s.t, Limit(g), own, i);
    }
    assert |Elements(own) + free| == |Elements(own)| + |free|;
    SubsetCount(Elements(own) + free, Below(Limit(g)));
  }

  lemma FreeBound(s: State, g: Geometry)
    requires Consistent(s, g)
    ensures |FreeSet(s.t, Limit(g))| <= 0x10000
  {
    hide TreeOf, Owned, CacheAgrees, Laid, WellFormed;
    SubsetCount(FreeSet(s.t, Limit(g)), Below(Limit(g)));
  }

  // The clusters that the file already has.
  ghost function OwnClusters(s: State, first: u16): nat
    requires first == 0 || first in s.chains
  {
    if first == 0 then 0 else |s.chains[first]|
  }

  // So many clusters reach far less than 2^32 bytes.
  lemma ReachBound(g: Geometry, n: nat)
    requires g.Valid() && n <= 0x10000
    ensures Span(n, g.ClusterSize()) + g.ClusterSize() < TWO_32
  {
    SpanMono(n, 0x10000, g.ClusterSize());
    SpanIsProduct(0x10000, g.ClusterSize());
  }

  /** A write on a disk that works stores all its data if and only if there is none or it ends
      within the clusters that the file has and those that are free; otherwise it stores what
      fits; and the file takes no cluster in which none of the data, and nothing in front of
      it, lies. */
  lemma WriteStoresAll(s: State, r: State, g: Geometry, first: u16, c: u16, offset: nat, data: seq<byte>, written: nat)
    requires Consistent(s, g) && Shaped(r, g) && (first == 0 || first in s.chains)
    requires WriteDone(s, r, g, first, c, offset, data, written, true)
    ensures written == |data| <==>
            data == []
            || offset + |data| <= Span(OwnClusters(s, first) + |FreeSet(s.t, Limit(g))|, g.ClusterSize())
    ensures var reach := Span(OwnClusters(s, first) + |FreeSet(s.t, Limit(g))|, g.ClusterSize());
            offset + |data| + g.ClusterSize() <= TWO_32 && offset + |data| > reach && data != [] ==>
              written == if offset < reach then reach - offset else 0
    ensures c in r.chains
    ensures var n := |r.chains[c]|;
            n > 1 && n > OwnClusters(s, first) ==> Span(n - 1, g.ClusterSize()) < offset + |data|
  {
    hide TreeOf, Owned, CacheAgrees, FilesKept, FileBytes, Stored, Span, FreeSet, NeededClusters, Grown;
    hide WellFormed, Overwrite, IsChain, Laid;
    var n, total := |r.chains[c]|, OwnClusters(s, first) + |FreeSet(s.t, Limit(g))|;
    assert 0 !in s.chains by { NoZero(s, g); }
    WriteLength(s, r, g, first, c, offset, data, written, true);
    NeededIsCeiling(g, offset, |data|);
    if first == 0 {
      FreeBound(s, g);
      FreeSome(s.t, Limit(g), c);
    } else {
      OwnAndFree(s, g, first);
    }
    ReachBound(g, total);
    assert n <= total;
    SpanMono(n, total, g.ClusterSize());
    var needed := NeededClusters(g, offset, |data|);
    if needed <= n {
      SpanMono(needed, n, g.ClusterSize());
    }
    if n > 1 && n > OwnClusters(s, first) {
      SpanMono(n - 1, needed - 1, g.ClusterSize());
    }
  }

  lemma FreeSome(t: seq<u16>, n: nat, c: u16)
    requires 2 <= n <= |t| && c == FirstFree(t, n, 2) < n
    ensures |FreeSet(t, n)| > 0
  {
    assert c in FreeSet(t, n);
  }

  /** 100 bytes at the end of a file of 2000 on one 2048-byte cluster take a second one, if
      any is free, and are all stored. */
  lemma SecondClusterExample(s: State, r: State, g: Geometry, c: u16, data: seq<byte>, written: nat)
    requires Consistent(s, g) && Shaped(r, g) && c in s.chains && |s.chains[c]| == 1 && g.sectorsPerCluster == 4
    requires FreeSet(s.t, Limit(g)) != {} && |data| == 100 && WriteDone(s, r, g, c, c, 2000, data, written, true)
    ensures written == 100 && c in r.chains && |r.chains[c]| == 2
  {
    hide TreeOf, Owned, CacheAgrees, FilesKept, FileBytes, Stored, Span, FreeSet, NeededClusters, Grown;
    hide WellFormed, Overwrite, IsChain, Laid;
    WriteStoresAll(s, r, g, c, c, 2000, data, written);
    var n := |r.chains[c]|;
    SpanMono(2, 1 + |FreeSet(s.t, Limit(g))|, g.ClusterSize());
    SpanIsProduct(1, 2048);
    SpanIsProduct(2, 2048);
    if n > 2 {
      SpanMono(2, n - 1, 2048);
    }
    if n < 2 {
      SpanMono(n, 1, 2048);
    }
  }

  /** After fat_node_write the file's size lies within its chain if and only if the offset
      lies within the clusters the file can get: on a volume that is too full, or when the
      32-bit sum of offset and length wraps, nothing is stored at a far offset and the size
      rises all the same. */
  lemma SizeCovered(s: State, r: State, g: Geometry, d: u16, name: seq<byte>, first: u16, size: nat, c: u16, n: nat,
                    offset: nat, data: seq<byte>, written: nat, reliable: bool)
    requires Consistent(s, g) && Shaped(r, g) && d in TreeOf(s, g)
    requires FileWritten(s, r, g, d, name, first, size, c, n, offset, data, written, reliable)
    requires if first == 0 then size == 0 else first in s.chains && size <= Reach(s, g, first)
    ensures c in r.chains
    ensures n <= Reach(r, g, c) <==> offset <= Span(ClustersAfter(s, g, first, offset, |data|), g.ClusterSize())
    ensures offset > Span(ClustersAfter(s, g, first, offset, |data|), g.ClusterSize()) ==> written == 0 && n == offset
  {
    hide TreeOf, Owned, CacheAgrees, FilesKept, FileBytes, Stored, Span, FreeSet, NeededClusters, Grown, WellFormed;
    hide Overwrite, IsChain, Laid, ClustersAfter, EntryUpdated;
    assert 0 !in s.chains by { NoZero(s, g); }
    WriteLength(s, r, g, first, c, offset, data, written, reliable);
    if first != 0 {
      ReachGrows(s, r, g, c, offset, data, written, reliable);
    }
  }

  lemma ReachGrows(s: State, r: State, g: Geometry, c: u16, offset: nat, data: seq<byte>, written: nat, reliable: bool)
    requires Consistent(s, g) && Shaped(r, g) && c in s.chains && c != 0
    requires WriteDone(s, r, g, c, c, offset, data, written, reliable)
    ensures c in r.chains && Reach(s, g, c) <= Reach(r, g, c)
  {
    hide TreeOf, Owned, CacheAgrees, FilesKept, FileBytes, Stored, Span, FreeSet, NeededClusters, WellFormed;
    hide Overwrite, IsChain;
    assert s.chains[c] <= r.chains[c];
    SpanMono(|s.chains[c]|, |r.chains[c]|, g.ClusterSize());
  }

  /** Reading stays inside the file exactly when the 32-bit sum of offset and size does not
      wrap. */
  lemma ReadStaysInside(fileSize: nat, offset: nat, size: nat)
    requires offset < fileSize < TWO_32 && size < TWO_32
    ensures offset + ReadLength(fileSize, offset, size) <= fileSize
            <==> offset + size < TWO_32
  {
    if offset + size >= TWO_32 {
      assert (offset + size) % TWO_32 == offset + size - TWO_32;
    }
  }

  /** Reading 2^32 - 10 bytes from byte 50 of a file of 100 bytes on aims at all of them. */
  lemma ReadOutsideExample()
    ensures ReadLength(100, 50, TWO_32 - 10) == TWO_32 - 10 && 50 + ReadLength(100, 50, TWO_32 - 10) > 100
  {
    assert (50 + (TWO_32 - 10)) % TWO_32 == 40;
  }

  // Bytes of a slot: never used or deleted, and in use under a name.
  predicate VacantBytes(e: Slot) {
    e[0] == 0 || e[0] == 0xE5
  }

  predicate NamedBytes(e: Slot, name: seq<byte>) {
    !VacantBytes(e) && e[11] / 8 % 2 == 0 && e[..11] == name
  }

  /** On a disk that works, fat_node_create and fat_node_mkdir succeed if and only if no entry
      of the directory goes by the name, a slot is vacant and a cluster is free. */
  lemma SucceedsIff(s: State, r: State, g: Geometry, d: u16, name: seq<byte>, first: u16)
    requires Consistent(s, g) && Consistent(r, g) && d in TreeOf(s, g) && |name| == 11
    requires CreateDone(s, r, g, d, name, first, true) || MkdirDone(s, r, g, d, name, first, true)
    ensures var v := TreeOf(s, g)[d];
            first != 0 <==> && (forall k :: 0 <= k < |v| ==> !NamedBytes(v[k], name))
                            && (exists k :: 0 <= k < |v| && VacantBytes(v[k]))
                            && FreeSet(s.t, Limit(g)) != {}
  {
    hide TreeOf, FilesKept, SlotFilled, Entered, DirImageSlots, OnlyDir, FirstMatch, NewEntry, Matches;
    hide NamedBytes, VacantBytes, FreeSet, Owned, WellFormed, Laid, CacheAgrees;
    var v := TreeOf(s, g)[d];
    forall k | 0 <= k < |v|
      ensures Matches(Named(name), v[k]) <==> NamedBytes(v[k], name)
      ensures Matches(Vacant, v[k]) <==> VacantBytes(v[k])
    {
      MatchesBytes(v[k], name);
    }
    AnyFree(s.t, Limit(g));
  }

  lemma MatchesBytes(e: Slot, name: seq<byte>)
    ensures Matches(Named(name), e) <==> NamedBytes(e, name)
    ensures Matches(Vacant, e) <==> VacantBytes(e)
  {
    assert e[11] % 16 == 15 ==> e[11] / 8 % 2 == 1;
  }

  lemma AnyFree(t: seq<u16>, n: nat)
    requires 2 <= n <= |t| && n <= EOC
    ensures FirstFree(t, n, 2) < n <==> FreeSet(t, n) != {}
  {
    if FirstFree(t, n, 2) < n {
      assert FirstFree(t, n, 2) in FreeSet(t, n);
    }
  }

  // ---------------------------------------------------------------- a directory as a map

  // The file called `name` in directory d.
  ghost function FileAt(s: State, g: Geometry, d: u16, name: seq<byte>): Option<seq<byte>>
    requires Shaped(s, g) && d in TreeOf(s, g)
  {
    var v := TreeOf(s, g)[d];
    var k := FirstMatch(Named(name), v);
    if k == |v| || IsDirectory(v[k]) then None
    else Some(Content(s, g, FirstCluster(v[k]), FileSize(v[k])))
  }

  // A name that a string can parse to.
  predicate IsName(x: seq<byte>) {
    |x| == 11 && x[0] != 0 && x[0] != DOT
  }

  ghost predicate AllUnique(s: State, g: Geometry)
    requires Consistent(s, g)
  {
    forall d :: d in TreeOf(s, g) ==> UniqueNames(TreeOf(s, g)[d])
  }

  /** A lookup that finds the same entry, whose chain was kept, finds the same file. */
  lemma FileSame(s: State, r: State, g: Geometry, d: u16, x: seq<byte>, except: u16)
    requires Consistent(s, g) && Shaped(r, g) && d in TreeOf(s, g) && d in TreeOf(r, g) && IsName(x)
    requires FilesKept(s, r, g, except)
    requires var v, w := TreeOf(s, g)[d], TreeOf(r, g)[d];
             var k := FirstMatch(Named(x), v);
             && |w| == |v| && FirstMatch(Named(x), w) == k
             && (k < |v| ==> w[k] == v[k] && (FirstCluster(v[k]) == 0 || FirstCluster(v[k]) != except))
    ensures FileAt(r, g, d, x) == FileAt(s, g, d, x)
  {
    hide TreeOf, WellFormed, CacheAgrees, FileBytes, FirstCluster, FileSize, IsDirectory;
    var v := TreeOf(s, g)[d];
    var k := FirstMatch(Named(x), v);
    if k < |v| {
      assert Matches(Named(x), v[k]);
      assert NameOf(v[k])[0] == x[0];
      assert 0 !in s.chains && 0 !in r.chains;
      if FirstCluster(v[k]) != 0 {
        assert Owns(TreeOf(s, g), d, k);
      }
    }
  }

  /** Creating a file is a map update: the name, unused before, stands for the empty file
      unless its slot cannot be written or it starts with 0xE5; all other names in all
      directories stand for what they did, and names stay unique. */
  lemma CreateIsMapUpdate(s: State, r: State, g: Geometry, d: u16, name: seq<byte>, first: u16)
    requires Consistent(s, g) && Consistent(r, g) && d in TreeOf(s, g) && IsName(name) && AllUnique(s, g)
    requires CreateDone(s, r, g, d, name, first, true) && first != 0
    ensures FileAt(s, g, d, name) == None
    ensures var k := FirstMatch(Vacant, TreeOf(s, g)[d]);
            d in TreeOf(r, g)
            && FileAt(r, g, d, name) == if SlotWritable(g, d, k) && name[0] != DELETED then Some([]) else None
    ensures forall c, x :: c in TreeOf(s, g) && IsName(x) && (c != d || x != name) ==>
              c in TreeOf(r, g) && FileAt(r, g, c, x) == FileAt(s, g, c, x)
    ensures AllUnique(r, g)
  {
    hide TreeOf, WellFormed, Owned, CacheAgrees, FilesKept, FirstFree, NewEntry, FileAt, FirstMatch, UniqueNames;
    hide SameLookups, IsValidEntry, Laid;
    var v, e := TreeOf(s, g)[d], NewEntry(name, ATTR_FILE, first);
    assert NameOf(e)[0] == name[0] == e[0];
    NewFileValid(e);
    CreatedLookup(v, e);
    LookupNone(s, g, d, name);
    forall c, x | c in TreeOf(s, g) && IsName(x) && (c != d || x != name)
      ensures c in TreeOf(r, g) && FileAt(r, g, c, x) == FileAt(s, g, c, x)
    {
      CreateOther(s, r, g, d, name, first, c, x);
    }
    CreateNew(s, r, g, d, name, first);
  }

  lemma NewFileValid(e: Slot)
    requires e[11] == ATTR_FILE && e[0] != 0
    ensures IsValidEntry(e) || e[0] == DELETED
    ensures !IsDirectory(e)
  {
  }

  lemma LookupNone(s: State, g: Geometry, d: u16, name: seq<byte>)
    requires Consistent(s, g) && d in TreeOf(s, g) && FirstMatch(Named(name), TreeOf(s, g)[d]) == |TreeOf(s, g)[d]|
    ensures FileAt(s, g, d, name) == None
  {
    hide TreeOf;
  }

  lemma CreateOther(s: State, r: State, g: Geometry, d: u16, name: seq<byte>, first: u16, c: u16, x: seq<byte>)
    requires Consistent(s, g) && Consistent(r, g) && d in TreeOf(s, g) && IsName(name) && UniqueNames(TreeOf(s, g)[d])
    requires CreateDone(s, r, g, d, name, first, true) && first != 0
    requires c in TreeOf(s, g) && IsName(x) && (c != d || x != name)
    ensures c in TreeOf(r, g) && FileAt(r, g, c, x) == FileAt(s, g, c, x)
  {
    hide TreeOf, WellFormed, Owned, CacheAgrees, FilesKept, FirstFree, NewEntry, FileAt, FirstMatch, IsValidEntry, Laid;
    var v, e := TreeOf(s, g)[d], NewEntry(name, ATTR_FILE, first);
    assert NameOf(e)[0] == name[0] == e[0];
    NewFileValid(e);
    CreatedLookup(v, e);
    if c == d {
      VacantNoMatch(v, x);
    }
    FileSame(s, r, g, c, x, 0);
  }

  // The first vacant slot is not what a name finds.
  lemma VacantNoMatch(v: seq<Slot>, x: seq<byte>)
    ensures FirstMatch(Named(x), v) == |v| || FirstMatch(Named(x), v) != FirstMatch(Vacant, v)
  {
    hide FirstMatch;
    var k := FirstMatch(Named(x), v);
    if k < |v| {
      assert Matches(Named(x), v[k]);
    }
  }

  lemma CreateNew(s: State, r: State, g: Geometry, d: u16, name: seq<byte>, first: u16)
    requires Consistent(s, g) && Consistent(r, g) && d in TreeOf(s, g) && IsName(name) && AllUnique(s, g)
    requires CreateDone(s, r, g, d, name, first, true) && first != 0
    ensures var k := FirstMatch(Vacant, TreeOf(s, g)[d]);
            d in TreeOf(r, g)
            && FileAt(r, g, d, name) == if SlotWritable(g, d, k) && name[0] != DELETED then Some([]) else None
    ensures AllUnique(r, g)
  {
    hide TreeOf, WellFormed, Owned, CacheAgrees, FilesKept, FirstFree, NewEntry, FirstMatch, UniqueNames;
    hide IsValidEntry, Laid, FileBytes;
    var v, e := TreeOf(s, g)[d], NewEntry(name, ATTR_FILE, first);
    assert NameOf(e)[0] == name[0] == e[0];
    NewFileValid(e);
    CreatedLookup(v, e);
  }

  /** Writing through a node is a map update at the name the node goes by, for every offset:
      that name stands for the outcome of the write on the node's file, and names in all
      directories whose entries have another chain stand for what they did.  `first` is the
      file's first cluster before, 0 if it had none. */
  lemma WriteIsMapUpdate(s: State, r: State, g: Geometry, d: u16, name: seq<byte>, first: u16, c: u16, size: nat,
                         offset: nat, data: seq<byte>, written: nat)
    requires Consistent(s, g) && Shaped(r, g) && d in TreeOf(s, g) && IsName(name) && AllUnique(s, g)
    requires if first == 0 then size == 0 else first in s.chains && size <= Reach(s, g, first)
    requires NewSize(size, offset, written) < TWO_32
    requires var v := TreeOf(s, g)[d];
             var k := FirstMatch(Named(name), v);
             k < |v| && !IsDirectory(v[k])
    requires WriteDone(s, r, g, first, c, offset, data, written, true) && 0 < written <= |data|
    requires EntryUpdated(s, r, g, d, name, c, NewSize(size, offset, written), written, true)
    ensures size <= Reach(r, g, c) && |Content(s, g, first, size)| == size
    ensures d in TreeOf(r, g) && FileAt(r, g, d, name)
              == Some(Outcome(Content(s, g, first, size), FileBytes(s.disk, g, r.chains[c]), offset, data[..written]))
    ensures forall b, x :: b in TreeOf(s, g) && IsName(x) && (b != d || x != name) && Elsewhere(s, g, b, x, first) ==>
              b in TreeOf(r, g) && FileAt(r, g, b, x) == FileAt(s, g, b, x)
    ensures TreeOf(r, g).Keys == TreeOf(s, g).Keys && forall b :: b in TreeOf(r, g) ==> UniqueNames(TreeOf(r, g)[b])
  {
    hide TreeOf, WellFormed, Owned, CacheAgrees, FilesKept, FirstFree, FirstMatch, UniqueNames, IsValidEntry, Laid;
    hide FileBytes;
    hide Grown, Span, WithSize, Content, Outcome, Stored, Elsewhere;
    var v := TreeOf(s, g)[d];
    var k := FirstMatch(Named(name), v);
    assert 0 !in s.chains by { NoZero(s, g); }
    WriteMeaning(s, r, g, first, c, size, offset, data, written);
    ResizedLookup(v, k, c, NewSize(size, offset, written));
    ResizedSame(v[k], c, NewSize(size, offset, written));
    forall b, x | b in TreeOf(s, g) && IsName(x) && (b != d || x != name) && Elsewhere(s, g, b, x, first)
      ensures b in TreeOf(r, g) && FileAt(r, g, b, x) == FileAt(s, g, b, x)
    {
      WriteOther(s, r, g, d, name, first, c, size, offset, data, written, b, x);
    }
  }

  // The name stands for no entry, or for one with another chain.
  ghost predicate Elsewhere(s: State, g: Geometry, b: u16, x: seq<byte>, first: u16)
    requires Shaped(s, g) && b in TreeOf(s, g)
  {
    var v := TreeOf(s, g)[b];
    var j := FirstMatch(Named(x), v);
    j < |v| ==> FirstCluster(v[j]) == 0 || FirstCluster(v[j]) != first
  }

  /** When the node goes by the name of its own entry, all other names are elsewhere: the
      directory entries are its own, and its old contents are what the name stood for. */
  lemma OwnEntry(s: State, g: Geometry, d: u16, name: seq<byte>, first: u16, size: nat)
    requires Consistent(s, g) && d in TreeOf(s, g) && IsName(name)
    requires var v := TreeOf(s, g)[d];
             var k := FirstMatch(Named(name), v);
             k < |v| && FirstCluster(v[k]) == first && FileSize(v[k]) == size && !IsDirectory(v[k])
    ensures FileAt(s, g, d, name) == Some(Content(s, g, first, size))
    ensures forall b, x :: b in TreeOf(s, g) && IsName(x) && (b != d || x != name) ==> Elsewhere(s, g, b, x, first)
  {
    hide TreeOf, WellFormed, CacheAgrees, FirstMatch, Laid, Content, FirstCluster, IsDirectory, Owned;
    var k := FirstMatch(Named(name), TreeOf(s, g)[d]);
    forall b, x | b in TreeOf(s, g) && IsName(x) && (b != d || x != name)
      ensures Elsewhere(s, g, b, x, first)
    {
      if first != 0 {
        OtherOwner(s, g, d, k, name, b, FirstMatch(Named(x), TreeOf(s, g)[b]), x);
      }
    }
  }

  /** So writing through a node that goes by its own entry's name is a map update of the
      directory tree: that name stands for the outcome of the write on what it stood for, and
      every other name, in all directories, for what it did. */
  lemma OwnWriteIsMapUpdate(s: State, r: State, g: Geometry, d: u16, name: seq<byte>, first: u16, c: u16, size: nat,
                            offset: nat, data: seq<byte>, written: nat)
    requires Consistent(s, g) && Consistent(r, g) && d in TreeOf(s, g) && IsName(name) && AllUnique(s, g)
    requires if first == 0 then size == 0 else first in s.chains && size <= Reach(s, g, first)
    requires NewSize(size, offset, written) < TWO_32
    requires var v := TreeOf(s, g)[d];
             var k := FirstMatch(Named(name), v);
             k < |v| && FirstCluster(v[k]) == first && FileSize(v[k]) == size && !IsDirectory(v[k])
    requires WriteDone(s, r, g, first, c, offset, data, written, true) && 0 < written <= |data|
    requires EntryUpdated(s, r, g, d, name, c, NewSize(size, offset, written), written, true)
    ensures FileAt(s, g, d, name).Some? && |FileAt(s, g, d, name).value| == size <= Reach(r, g, c)
    ensures d in TreeOf(r, g) && FileAt(r, g, d, name)
              == Some(Outcome(FileAt(s, g, d, name).value, FileBytes(s.disk, g, r.chains[c]), offset, data[..written]))
    ensures forall b, x :: b in TreeOf(s, g) && IsName(x) && (b != d || x != name) ==>
              b in TreeOf(r, g) && FileAt(r, g, b, x) == FileAt(s, g, b, x)
    ensures AllUnique(r, g)
  {
    hide TreeOf, WellFormed, Owned, CacheAgrees, FilesKept, FirstFree, FirstMatch, UniqueNames, Laid, FileBytes, FileAt;
    hide Grown, Span, WithSize, Content, Outcome, Stored, Elsewhere, FirstCluster, FileSize, IsDirectory;
    OwnEntry(s, g, d, name, first, size);
    WriteIsMapUpdate(s, r, g, d, name, first, c, size, offset, data, written);
  }

  /** Writing through a node that goes by another file's name: that name comes to stand for
      the written file, the file's own name for as much of it as its old size shows, and two
      entries own one chain. */
  lemma MisnamedWrite(s: State, r: State, g: Geometry, d: u16, own: seq<byte>, name: seq<byte>, first: u16, c: u16,
                      size: nat, offset: nat, data: seq<byte>, written: nat)
    requires Consistent(s, g) && Shaped(r, g) && d in TreeOf(s, g) && IsName(name) && IsName(own) && AllUnique(s, g)
    requires first in s.chains && size <= Reach(s, g, first) && NewSize(size, offset, written) < TWO_32 && own != name
    requires var v := TreeOf(s, g)[d];
             var j, k := FirstMatch(Named(own), v), FirstMatch(Named(name), v);
             && j < |v| && !IsDirectory(v[j]) && FirstCluster(v[j]) == first && FileSize(v[j]) == size
             && k < |v| && !IsDirectory(v[k])
    requires WriteDone(s, r, g, first, c, offset, data, written, true) && 0 < written <= |data|
    requires EntryUpdated(s, r, g, d, name, c, NewSize(size, offset, written), written, true)
    ensures size <= Reach(r, g, c) && |Content(s, g, first, size)| == size
    ensures var after := Outcome(Content(s, g, first, size), FileBytes(s.disk, g, r.chains[c]), offset,
                                 data[..written]);
            && d in TreeOf(r, g) && FileAt(r, g, d, name) == Some(after)
            && size <= |after| && FileAt(r, g, d, own) == Some(after[..size])
    ensures !Owned(TreeOf(r, g), r.chains.Keys, r.dirs)
  {
    hide TreeOf, WellFormed, CacheAgrees, FilesKept, FirstFree, FirstMatch, IsValidEntry, Laid, FileBytes, UniqueNames;
    hide Grown, Span, WithSize, Stored, Elsewhere, FirstCluster, IsDirectory, Owned, Outcome, FileAt, Content, PutSlot;
    var v := TreeOf(s, g)[d];
    var j, k := FirstMatch(Named(own), v), FirstMatch(Named(name), v);
    assert 0 !in s.chains by { NoZero(s, g); }
    WriteIsMapUpdate(s, r, g, d, name, first, c, size, offset, data, written);
    WriteMeaning(s, r, g, first, c, size, offset, data, written);
    NamesDiffer(v, k, name, j, own);
    OwnAfter(s, r, g, d, own, j, name, k, c, size, NewSize(size, offset, written));
    OwnPrefix(s, r, g, first, c, size, offset, data, written);
    TwoOwners(TreeOf(s, g), s.chains.Keys, s.dirs, d, own, j, name, k, NewSize(size, offset, written));
    SameChains(s, r, g, first, c, offset, data, written);
  }

  lemma SameChains(s: State, r: State, g: Geometry, first: u16, c: u16, offset: nat, data: seq<byte>, written: nat)
    requires Consistent(s, g) && Shaped(r, g) && first in s.chains
             && WriteDone(s, r, g, first, c, offset, data, written, true)
    ensures r.chains.Keys == s.chains.Keys && r.dirs == s.dirs
  {
    hide TreeOf, WellFormed, CacheAgrees, FilesKept, FirstFree, FileBytes, Span, Stored, Owned, Laid, NeededClusters;
    hide Extended;
    NoZero(s, g);
  }

  // Entry k changed, so the own entry j shows the same chain and size as before.
  lemma OwnAfter(s: State, r: State, g: Geometry, d: u16, own: seq<byte>, j: nat, name: seq<byte>, k: nat, c: u16,
                 size: nat, n: nat)
    requires Shaped(s, g) && Shaped(r, g) && d in TreeOf(s, g) && UniqueNames(TreeOf(s, g)[d]) && n < TWO_32
    requires var v := TreeOf(s, g)[d];
             && j == FirstMatch(Named(own), v) < |v| && k < |v| && j != k
             && !IsDirectory(v[j]) && FirstCluster(v[j]) == c && FileSize(v[j]) == size
             && TreeOf(r, g) == TreeOf(s, g)[d := PutSlot(v, k, WithSize(v[k], c, n))]
    ensures d in TreeOf(r, g) && FileAt(r, g, d, own) == Some(Content(r, g, c, size))
  {
    hide TreeOf, Shaped, FirstMatch, WithSize, Content, FirstCluster, IsDirectory, FileSize, UniqueNames;
    ResizedLookup(TreeOf(s, g)[d], k, c, n);
  }

  // Seen through the old size, the file is a prefix of the outcome.
  lemma OwnPrefix(s: State, r: State, g: Geometry, first: u16, c: u16, size: nat, offset: nat, data: seq<byte>,
                  written: nat)
    requires Consistent(s, g) && Shaped(r, g) && first in s.chains && first != 0 && size <= Reach(s, g, first)
    requires WriteDone(s, r, g, first, c, offset, data, written, true)
    ensures size <= |Content(r, g, c, NewSize(size, offset, written))|
    ensures Content(r, g, c, size) == Content(r, g, c, NewSize(size, offset, written))[..size]
  {
    hide TreeOf, WellFormed, CacheAgrees, FilesKept, FirstFree, FileBytes, Grown, Span, Stored, Owned;
    ReachGrows(s, r, g, c, offset, data, written, true);
    var b := FileBytes(r.disk, g, r.chains[c]);
    PrefixOfPrefix(b, Min(NewSize(size, offset, written), |b|), size);
  }

  lemma TwoOwners(v: map<u16, seq<Slot>>, chains: set<u16>, dirs: set<u16>, d: u16, own: seq<byte>, j: nat,
                  name: seq<byte>, k: nat, n: nat)
    requires Owned(v, chains, dirs) && d in v && j < |v[d]| && k < |v[d]| && j != k && n < TWO_32 && IsName(own)
             && IsName(name)
    requires Matches(Named(own), v[d][j]) && Matches(Named(name), v[d][k])
    requires FirstCluster(v[d][j]) != 0 && !IsDirectory(v[d][j])
    ensures !Owned(v[d := PutSlot(v[d], k, WithSize(v[d][k], FirstCluster(v[d][j]), n))], chains, dirs)
  {
    hide WithSize, FirstCluster, IsDirectory, Sized;
    assert NameOf(v[d][j])[0] == own[0] && NameOf(v[d][k])[0] == name[0];
    assert Owns(v, d, j);
    OwnedResized(v, chains, dirs, d, k, FirstCluster(v[d][j]), n);
  }

  lemma NoZero(s: State, g: Geometry)
    requires Shaped(s, g)
    ensures 0 !in s.chains
  {
  }

  lemma WriteOther(s: State, r: State, g: Geometry, d: u16, name: seq<byte>, first: u16, c: u16, size: nat,
                   offset: nat, data: seq<byte>, written: nat, b: u16, x: seq<byte>)
    requires Consistent(s, g) && Shaped(r, g) && d in TreeOf(s, g) && IsName(name) && UniqueNames(TreeOf(s, g)[d])
    requires (first == 0 || first in s.chains) && NewSize(size, offset, written) < TWO_32 && written > 0
    requires FirstMatch(Named(name), TreeOf(s, g)[d]) < |TreeOf(s, g)[d]|
    requires WriteDone(s, r, g, first, c, offset, data, written, true)
    requires EntryUpdated(s, r, g, d, name, c, NewSize(size, offset, written), written, true)
    requires b in TreeOf(s, g) && IsName(x) && (b != d || x != name) && Elsewhere(s, g, b, x, first)
    ensures b in TreeOf(r, g) && FileAt(r, g, b, x) == FileAt(s, g, b, x)
  {
    hide TreeOf, WellFormed, CacheAgrees, FilesKept, FirstFree, FirstMatch, Laid, FileAt, Grown, Span, WithSize;
    hide Stored, Owned;
    hide FirstCluster;
    var v := TreeOf(s, g)[d];
    var k := FirstMatch(Named(name), v);
    ResizedLookup(v, k, c, NewSize(size, offset, written));
    NoZero(s, g);
    var j := FirstMatch(Named(x), TreeOf(s, g)[b]);
    if j < |TreeOf(s, g)[b]| {
      FoundChain(s, g, b, j, x);
    }
    if b == d {
      NamesDiffer(v, k, name, j, x);
    }
    FileSame(s, r, g, b, x, c);
  }

  // The chain of an entry found under a name is a chain of the volume.
  lemma FoundChain(s: State, g: Geometry, b: u16, j: nat, x: seq<byte>)
    requires Consistent(s, g) && b in TreeOf(s, g) && j < |TreeOf(s, g)[b]| && IsName(x)
             && Matches(Named(x), TreeOf(s, g)[b][j])
    ensures FirstCluster(TreeOf(s, g)[b][j]) == 0 || FirstCluster(TreeOf(s, g)[b][j]) in s.chains
  {
    hide TreeOf, WellFormed, CacheAgrees, FirstCluster, Laid, IsDirectory;
    var e := TreeOf(s, g)[b][j];
    assert NameOf(e)[0] == x[0];
    if FirstCluster(e) != 0 {
      assert Owns(TreeOf(s, g), b, j);
    }
  }

  // Entries found under different names or in different directories have different chains.
  lemma OtherOwner(s: State, g: Geometry, d: u16, k: nat, name: seq<byte>, b: u16, j: nat, x: seq<byte>)
    requires Consistent(s, g) && d in TreeOf(s, g) && b in TreeOf(s, g) && IsName(name) && IsName(x)
             && (b != d || x != name)
    requires k < |TreeOf(s, g)[d]| && Matches(Named(name), TreeOf(s, g)[d][k]) && FirstCluster(TreeOf(s, g)[d][k]) != 0
    requires j <= |TreeOf(s, g)[b]| && (j < |TreeOf(s, g)[b]| ==> Matches(Named(x), TreeOf(s, g)[b][j]))
    ensures j < |TreeOf(s, g)[b]| ==> b != d || j != k
    ensures j < |TreeOf(s, g)[b]| ==>
              FirstCluster(TreeOf(s, g)[b][j]) == 0
              || FirstCluster(TreeOf(s, g)[b][j]) != FirstCluster(TreeOf(s, g)[d][k])
  {
    hide TreeOf, WellFormed, CacheAgrees, FirstCluster, Laid, IsDirectory;
    var t := TreeOf(s, g);
    assert NameOf(t[d][k])[0] == name[0];
    assert Owns(t, d, k);
    if j < |t[b]| {
      assert NameOf(t[b][j])[0] == x[0];
      if FirstCluster(t[b][j]) != 0 {
        assert Owns(t, b, j);
      }
    }
  }

  /** Unlinking a file is a map removal: the name is gone and all other names, in every
      directory that remains, stand for what they did. */
  lemma UnlinkIsMapRemoval(s: State, r: State, g: Geometry, d: u16, name: seq<byte>, k: nat)
    requires Consistent(s, g) && Consistent(r, g) && d in TreeOf(s, g) && IsName(name) && AllUnique(s, g)
    requires UnlinkDone(s, r, g, d, name, true, k, true)
    ensures d in TreeOf(r, g) ==> FileAt(r, g, d, name) == None
    ensures forall b, x :: b in TreeOf(s, g) && b in TreeOf(r, g) && IsName(x) && (b != d || x != name) ==>
              FileAt(r, g, b, x) == FileAt(s, g, b, x)
    ensures AllUnique(r, g)
  {
    hide TreeOf, WellFormed, Owned, CacheAgrees, FilesKept, FirstMatch, UniqueNames, IsValidEntry, Laid, FileBytes;
    hide FreeFrom, FreeSet, Deleted, FileAt;
    DeletedLookup(TreeOf(s, g)[d], name);
    if d in TreeOf(r, g) {
      LookupNone(r, g, d, name);
    }
    forall b, x | b in TreeOf(s, g) && b in TreeOf(r, g) && IsName(x) && (b != d || x != name)
      ensures FileAt(r, g, b, x) == FileAt(s, g, b, x)
    {
      UnlinkOther(s, r, g, d, name, k, b, x);
    }
  }

  lemma UnlinkOther(s: State, r: State, g: Geometry, d: u16, name: seq<byte>, k: nat, b: u16, x: seq<byte>)
    requires Consistent(s, g) && Consistent(r, g) && d in TreeOf(s, g) && IsName(name) && UniqueNames(TreeOf(s, g)[d])
    requires UnlinkDone(s, r, g, d, name, true, k, true)
    requires b in TreeOf(s, g) && b in TreeOf(r, g) && IsName(x) && (b != d || x != name)
    ensures FileAt(r, g, b, x) == FileAt(s, g, b, x)
  {
    hide TreeOf, WellFormed, CacheAgrees, FilesKept, FirstMatch, UniqueNames, Laid, FreeFrom, FreeSet, Deleted, FileAt;
    var t := TreeOf(s, g);
    var j := FirstMatch(Named(x), t[b]);
    DeletedLookup(t[d], name);
    if FirstCluster(t[d][k]) != 0 {
      OtherOwner(s, g, d, k, name, b, j, x);
    }
    if b == d {
      NamesDiffer(t[d], k, name, j, x);
    }
    FileSame(s, r, g, b, x, FirstCluster(t[d][k]));
  }

  lemma NamesDiffer(v: seq<Slot>, k: nat, name: seq<byte>, j: nat, x: seq<byte>)
    requires k < |v| && Matches(Named(name), v[k]) && j <= |v| && (j < |v| ==> Matches(Named(x), v[j])) && x != name
    ensures j < |v| ==> j != k
  {
  }

  // ---------------------------------------------------------------- clusters over a file's life

  ghost predicate IsWrite(s: State, r: State, g: Geometry, c: u16) {
    && Consistent(s, g) && Consistent(r, g) && c in s.chains
    && exists offset: nat, data: seq<byte>, written: nat, reliable: bool ::
         WriteDone(s, r, g, c, c, offset, data, written, reliable)
  }

  lemma WriteUsesFree(s: State, r: State, g: Geometry, c: u16)
    requires IsWrite(s, r, g, c)
    ensures c in r.chains
            && FreeSet(r.t, Limit(g)) + Elements(r.chains[c]) == FreeSet(s.t, Limit(g)) + Elements(s.chains[c])
  {
    hide TreeOf, Owned, CacheAgrees, FilesKept, FileBytes, Stored, Span, FirstFree, FreeSet, Elements, Overwrite;
    hide Extended, WellFormed;
    var offset: nat, data: seq<byte>, written: nat, reliable: bool :|
      WriteDone(s, r, g, c, c, offset, data, written, reliable);
    ChainOf(s, g, c);
    assert 0 !in s.chains by { NoZero(s, g); }
    ExtendUsesFree(s.t, Limit(g), s.chains[c], NeededClusters(g, offset, |data|));
  }

  lemma {:induction false} WritesUseFree(ss: seq<State>, g: Geometry, c: u16)
    requires |ss| > 0 && Consistent(ss[0], g) && c in ss[0].chains
    requires forall i :: 0 <= i < |ss| - 1 ==> IsWrite(ss[i], ss[i + 1], g, c)
    ensures Consistent(ss[|ss| - 1], g) && c in ss[|ss| - 1].chains
    ensures FreeSet(ss[|ss| - 1].t, Limit(g)) + Elements(ss[|ss| - 1].chains[c])
            == FreeSet(ss[0].t, Limit(g)) + Elements(ss[0].chains[c])
  {
    hide Consistent, FreeSet, Elements, WriteDone;
    if |ss| > 1 {
      var init := ss[..|ss| - 1];
      forall i | 0 <= i < |init| - 1
        ensures IsWrite(init[i], init[i + 1], g, c)
      {
        assert IsWrite(ss[i], ss[i + 1], g, c);
      }
      WritesUseFree(init, g, c);
      assert IsWrite(ss[|ss| - 2], ss[|ss| - 2 + 1], g, c);
      WriteUsesFree(ss[|ss| - 2], ss[|ss| - 1], g, c);
    }
  }

  /** Create a file, write it any number of times, unlink an entry of its chain: the set of
      free clusters is exactly what it was, whatever the disk did. */
  lemma ChainLifeRestoresFree(s: State, ss: seq<State>, r: State, g: Geometry, d: u16, name: seq<byte>, c: u16, k: nat,
                              a: bool, b: bool)
    requires Consistent(s, g) && |ss| > 0 && Consistent(ss[0], g) && Consistent(r, g) && d in TreeOf(s, g)
             && |name| == 11
    requires CreateDone(s, ss[0], g, d, name, c, a) && c != 0
    requires forall i :: 0 <= i < |ss| - 1 ==> IsWrite(ss[i], ss[i + 1], g, c)
    requires Consistent(ss[|ss| - 1], g) && d in TreeOf(ss[|ss| - 1], g)
    requires UnlinkDone(ss[|ss| - 1], r, g, d, name, true, k, b)
    requires k < |TreeOf(ss[|ss| - 1], g)[d]| && FirstCluster(TreeOf(ss[|ss| - 1], g)[d][k]) == c
    ensures FreeSet(r.t, Limit(g)) == FreeSet(s.t, Limit(g))
  {
    hide TreeOf, Consistent, FreeFrom, FilesKept, Struck, IsWrite, FirstFree, FirstMatch, SlotFilled;
    WritesUseFree(ss, g, c);
    ShapedOf(s, g);
    AllocUsesFree(s.t, Limit(g), c);
  }

  lemma AllocUsesFree(t: seq<u16>, n: nat, c: u16)
    requires n <= |t| && 2 <= c < n && t[c] == FREE
    ensures FreeSet(t[c := EOC], n) + Elements([c]) == FreeSet(t, n)
  {
    ElementsCons([c]);
    assert FreeSet(t[c := EOC], n) == FreeSet(t, n) - {c};
  }
}
