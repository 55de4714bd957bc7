/**
 The life of a file on a disk that works: created, written any number of times, unlinked.
 Its clusters come back exactly when unlink can find the name again.
 */
module FatLife {
  import opened FatTable
  import opened FatGeometry
  import opened FatData
  import opened FatNames
  import opened FatDir
  import opened FatFs
  import opened FatState
  import opened FatSlots
  import opened FatOps
  import opened FatTheorems

  // fat_node_write of the file `name` in directory d, whose chain is c.
  ghost predicate WritesFile(s: State, r: State, g: Geometry, d: u16, name: seq<byte>, c: u16) {
    && Consistent(s, g) && Consistent(r, g) && c in s.chains && c != 0 && d in TreeOf(s, g)
    && exists size: nat, n: nat, offset: nat, data: seq<byte>, written: nat ::
         FileWritten(s, r, g, d, name, c, size, c, n, offset, data, written, true)
  }

  // Whether the name is found in directory d, and then with chain c.
  ghost predicate Finds(s: State, g: Geometry, d: u16, name: seq<byte>, c: u16, found: bool)
    requires Consistent(s, g)
  {
    d in TreeOf(s, g) && FindsIn(TreeOf(s, g)[d], name, c, found)
  }

  ghost predicate FindsIn(v: seq<Slot>, name: seq<byte>, c: u16, found: bool) {
    var k := FirstMatch(Named(name), v);
    if found then k < |v| && FirstCluster(v[k]) == c else k == |v|
  }

  // Whether a new entry will be found under its name.
  predicate Findable(g: Geometry, d: u16, k: nat, name: seq<byte>)
    requires g.Valid() && |name| == 11
  {
    SlotWritable(g, d, k) && name[0] != DELETED
  }

  lemma CreateFinds(s: State, r: State, g: Geometry, d: u16, name: seq<byte>, c: u16)
    requires Consistent(s, g) && Consistent(r, g) && d in TreeOf(s, g) && IsName(name)
    requires CreateDone(s, r, g, d, name, c, true) && c != 0
    ensures Finds(r, g, d, name, c, Findable(g, d, FirstMatch(Vacant, TreeOf(s, g)[d]), name)) && c in r.chains
  {
    hide TreeOf, WellFormed, Owned, CacheAgrees, FilesKept, FirstFree, NewEntry, Laid, SlotFilled, FirstMatch;
    hide FirstCluster, PutSlot, NameOf;
    var v, e := TreeOf(s, g)[d], NewEntry(name, ATTR_FILE, c);
    FirstByte(e, name);
    NewFileValid(e);
    EnteredFound(v, e, name);
  }

  lemma FirstByte(e: Slot, name: seq<byte>)
    requires NameOf(e) == name && |name| == 11
    ensures e[0] == name[0]
  {
  }

  // The new entry in the first vacant slot is the first of its name, unless it looks deleted.
  lemma EnteredFound(v: seq<Slot>, e: Slot, name: seq<byte>)
    requires FirstMatch(Named(name), v) == |v| && FirstMatch(Vacant, v) < |v|
    requires NameOf(e) == name && (IsValidEntry(e) || e[0] == DELETED)
    ensures var k := FirstMatch(Vacant, v);
            FindsIn(PutSlot(v, k, e), name, FirstCluster(e), e[0] != DELETED)
  {
    hide NameOf, FirstCluster, FirstMatch;
    var k := FirstMatch(Vacant, v);
    var w := PutSlot(v, k, e);
    FirstMatchIs(Named(name), w, if e[0] == DELETED then |v| else k);
  }

  lemma WriteFinds(s: State, r: State, g: Geometry, d: u16, name: seq<byte>, c: u16, found: bool)
    requires WritesFile(s, r, g, d, name, c) && Finds(s, g, d, name, c, found)
    ensures Finds(r, g, d, name, c, found) && IsWrite(s, r, g, c)
  {
    hide TreeOf, WellFormed, Owned, CacheAgrees, FilesKept, FirstFree, Laid, FirstMatch, FirstCluster, PutSlot;
    hide NameOf, WithSize, Grown, Span, FileBytes, FindsIn;
    var size: nat, n: nat, offset: nat, data: seq<byte>, written: nat :|
      FileWritten(s, r, g, d, name, c, size, c, n, offset, data, written, true);
    assert WriteDone(s, r, g, c, c, offset, data, written, true);
    ResizedFound(TreeOf(s, g)[d], name, c, n, found);
  }

  lemma ResizedFound(v: seq<Slot>, name: seq<byte>, c: u16, size: nat, found: bool)
    requires FindsIn(v, name, c, found) && size < TWO_32
    ensures var k := FirstMatch(Named(name), v);
            k < |v| ==> FindsIn(PutSlot(v, k, WithSize(v[k], c, size)), name, c, found)
  {
    hide NameOf, FirstCluster, FirstMatch, WithSize, IsDirectory, IsValidEntry;
    var k := FirstMatch(Named(name), v);
    if k < |v| {
      ResizedEntry(v[k], c, size);
      FirstMatchIs(Named(name), PutSlot(v, k, WithSize(v[k], c, size)), k);
    }
  }

  // Over any number of writes.
  lemma {:induction false} WritesFind(ss: seq<State>, g: Geometry, d: u16, name: seq<byte>, c: u16, found: bool)
    requires |ss| > 0 && Consistent(ss[0], g) && c in ss[0].chains && Finds(ss[0], g, d, name, c, found)
    requires forall i :: 0 <= i < |ss| - 1 ==> WritesFile(ss[i], ss[i + 1], g, d, name, c)
    ensures Consistent(ss[|ss| - 1], g) && Finds(ss[|ss| - 1], g, d, name, c, found)
    ensures forall i :: 0 <= i < |ss| - 1 ==> IsWrite(ss[i], ss[i + 1], g, c)
  {
    hide Consistent, Finds, FileWritten, IsWrite;
    if |ss| > 1 {
      var init := ss[..|ss| - 1];
      forall i | 0 <= i < |init| - 1
        ensures WritesFile(init[i], init[i + 1], g, d, name, c)
      {
        assert WritesFile(ss[i], ss[i + 1], g, d, name, c);
      }
      WritesFind(init, g, d, name, c, found);
      forall i | 0 <= i < |ss| - 2
        ensures IsWrite(ss[i], ss[i + 1], g, c)
      {
        assert IsWrite(init[i], init[i + 1], g, c);
      }
      assert WritesFile(ss[|ss| - 2], ss[|ss| - 2 + 1], g, d, name, c);
      WriteFinds(ss[|ss| - 2], ss[|ss| - 1], g, d, name, c, found);
    }
  }

  /** Create a file, write it any number of times, unlink it by name: unlink succeeds, and
      the set of free clusters is exactly what it was, if and only if the slot of the new
      entry could be written and the name does not start with the deletion mark. */
  lemma LifeRestoresFree(s: State, ss: seq<State>, r: State, g: Geometry, d: u16, name: seq<byte>, c: u16, ok: bool,
                         k: nat)
    requires Consistent(s, g) && |ss| > 0 && Consistent(ss[0], g) && Consistent(r, g) && d in TreeOf(s, g)
             && IsName(name)
    requires CreateDone(s, ss[0], g, d, name, c, true) && c != 0
    requires forall i :: 0 <= i < |ss| - 1 ==> WritesFile(ss[i], ss[i + 1], g, d, name, c)
    requires Consistent(ss[|ss| - 1], g) && d in TreeOf(ss[|ss| - 1], g)
    requires UnlinkDone(ss[|ss| - 1], r, g, d, name, ok, k, true)
    ensures var findable := Findable(g, d, FirstMatch(Vacant, TreeOf(s, g)[d]), name);
            (ok <==> findable) && (FreeSet(r.t, Limit(g)) == FreeSet(s.t, Limit(g)) <==> findable)
  {
    hide TreeOf, Consistent, FreeFrom, FilesKept, Struck, WritesFile, FirstFree, FirstMatch, SlotFilled, IsWrite;
    hide FirstCluster, FreeSet, Matches, Entered, CanCreate, FindsIn;
    ShapedOf(s, g);
    ShapedOf(ss[|ss| - 1], g);
    CreateFinds(s, ss[0], g, d, name, c);
    var findable := Findable(g, d, FirstMatch(Vacant, TreeOf(s, g)[d]), name);
    WritesFind(ss, g, d, name, c, findable);
    Found(TreeOf(ss[|ss| - 1], g)[d], name, c, findable);
    if findable {
      ChainLifeRestoresFree(s, ss, r, g, d, name, c, k, true, true);
    } else {
      WritesUseFree(ss, g, c);
      ChainOf(ss[|ss| - 1], g, c);
      StillUsed(s.t, r.t, Limit(g), c, ss[|ss| - 1].chains[c]);
    }
  }

  lemma Found(v: seq<Slot>, name: seq<byte>, c: u16, found: bool)
    requires FindsIn(v, name, c, found)
    ensures var k := FirstMatch(Named(name), v);
            (found <==> k < |v|) && (k < |v| ==> FirstCluster(v[k]) == c)
  {
  }

  lemma StillUsed(t: seq<u16>, u: seq<u16>, n: nat, c: u16, s: seq<u16>)
    requires n <= |t| && n <= |u| && IsChain(u, n, s) && s[0] == c && t[c] == FREE && 2 <= c < n
    ensures FreeSet(u, n) != FreeSet(t, n)
  {
    ChainNotFree(u, n, s, 0);
    assert c in FreeSet(t, n) && c !in FreeSet(u, n);
  }
}
