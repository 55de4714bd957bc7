/**
 Runs of the FAT driver's operations: when directories keep unique names, that the table
 stays clean and no cluster is lost, who owns what, and that mkdir changes no file.
 */
module FatRuns {
  import opened FatTable
  import opened FatGeometry
  import opened FatData
  import opened FatIo
  import opened FatNames
  import opened FatDir
  import opened FatFs
  import opened FatState
  import opened FatOps
  import opened FatTheorems

  // The slots of a new directory: `.` and `..`, then vacant ones.
  lemma DirImageAt(g: Geometry, first: u16, parent: u16, k: nat)
    requires g.Valid() && k < |DirImageSlots(g, first, parent)|
    ensures var e := DirImageSlots(g, first, parent)[k];
            && (if k < 2 then NameOf(e) == (if k == 0 then DOT_NAME else DOTDOT_NAME) else e[0] == 0)
            && (k == 0 ==> e == NewEntry(DOT_NAME, ATTR_DIRECTORY, first))
            && (k == 1 ==> e == NewEntry(DOTDOT_NAME, ATTR_DIRECTORY, parent))
  {
    var b := DirImage(first, parent);
    var e := DirImageSlots(g, first, parent)[k];
    assert e == SlotAt(b[..g.ClusterSize()], k) == b[32 * k..32 * k + 32];
    assert e[0] == b[32 * k];
    if k == 0 {
      assert e == NewEntry(DOT_NAME, ATTR_DIRECTORY, first);
    } else if k == 1 {
      assert e == NewEntry(DOTDOT_NAME, ATTR_DIRECTORY, parent);
    }
  }

  // A directory entry by its bytes: this name, the directory attribute, this first cluster.
  ghost predicate PointsTo(e: Slot, name: seq<byte>, cluster: u16)
    requires |name| == 2
  {
    && e[0] == name[0] && e[1] == name[1] && (forall i :: 2 <= i < 11 ==> e[i] == 0x20)
    && e[11] == 0x10 && e[26] as int + 256 * e[27] as int == cluster
  }

  // `.` leads to first, `..` to parent, and the other slots are vacant.
  ghost predicate OnlyDots(v: seq<Slot>, first: u16, parent: u16) {
    && |v| >= 2 && PointsTo(v[0], [0x2E, 0x20], first) && PointsTo(v[1], [0x2E, 0x2E], parent)
    && forall k :: 2 <= k < |v| ==> v[k][0] == 0
  }

  lemma DirImageDots(g: Geometry, first: u16, parent: u16)
    requires g.Valid()
    ensures OnlyDots(DirImageSlots(g, first, parent), first, parent)
  {
    var v := DirImageSlots(g, first, parent);
    assert |v| == g.ClusterSize() / 32 >= 2;
    hide DirImageSlots, NameOf, NewEntry;
    DotEntry(DOT_NAME, first);
    DotEntry(DOTDOT_NAME, parent);
    forall k | 0 <= k < |v|
      ensures k == 0 ==> v[k] == NewEntry(DOT_NAME, ATTR_DIRECTORY, first)
      ensures k == 1 ==> v[k] == NewEntry(DOTDOT_NAME, ATTR_DIRECTORY, parent)
      ensures k >= 2 ==> v[k][0] == 0
    {
      DirImageAt(g, first, parent, k);
    }
  }

  lemma DotEntry(name: seq<byte>, cluster: u16)
    requires |name| == 11
    ensures var e := NewEntry(name, ATTR_DIRECTORY, cluster);
            && (forall i :: 0 <= i < 11 ==> e[i] == name[i]) && e[11] == 0x10
            && e[26] as int + 256 * e[27] as int == cluster
  {
    var e := NewEntry(name, ATTR_DIRECTORY, cluster);
    assert forall i :: 0 <= i < 11 ==> e[i] == NameOf(e)[i];
  }

  /** A directory just made holds `.`, which leads to the directory itself, `..`, which leads
      to the directory it was made in, and nothing else. */
  lemma NewDirectory(s: State, r: State, g: Geometry, d: u16, name: seq<byte>, first: u16)
    requires Consistent(s, g) && Consistent(r, g) && d in TreeOf(s, g) && |name| == 11
    requires MkdirDone(s, r, g, d, name, first, true) && first != 0
    ensures first in TreeOf(r, g) && OnlyDots(TreeOf(r, g)[first], first, d)
  {
    assert g.Valid();
    hide TreeOf, Consistent, FilesKept, Entered, CanCreate, DirImageSlots, SlotFilled, OnlyDots, Unchanged, NewEntry;
    DirImageDots(g, first, d);
  }

  lemma DirImageNames(g: Geometry, first: u16, parent: u16)
    requires g.Valid()
    ensures UniqueNames(DirImageSlots(g, first, parent))
    ensures forall x :: IsName(x) ==>
              FirstMatch(Named(x), DirImageSlots(g, first, parent)) == |DirImageSlots(g, first, parent)|
  {
    hide DirImageSlots, NameOf, FirstMatch;
    var v := DirImageSlots(g, first, parent);
    forall k | 0 <= k < |v|
      ensures if k < 2 then NameOf(v[k]) == (if k == 0 then DOT_NAME else DOTDOT_NAME) else v[k][0] == 0
    {
      DirImageAt(g, first, parent, k);
    }
    assert DOT_NAME[0] == DOT && DOTDOT_NAME[0] == DOT && DOT_NAME[1] != DOTDOT_NAME[1];
    forall x | IsName(x)
      ensures FirstMatch(Named(x), v) == |v|
    {
      assert forall k :: 0 <= k < |v| ==> !Matches(Named(x), v[k]);
      FirstMatchIs(Named(x), v, |v|);
    }
  }

  /** Making a directory changes no file: every name in every directory stands for what it
      did, the new directory holds no file, and names stay unique. */
  lemma MkdirChangesNoFile(s: State, r: State, g: Geometry, d: u16, name: seq<byte>, first: u16)
    requires Consistent(s, g) && Consistent(r, g) && d in TreeOf(s, g) && IsName(name) && AllUnique(s, g)
    requires MkdirDone(s, r, g, d, name, first, true) && first != 0
    ensures forall c, x :: c in TreeOf(s, g) && IsName(x) ==>
              c in TreeOf(r, g) && FileAt(r, g, c, x) == FileAt(s, g, c, x)
    ensures first in TreeOf(r, g) && forall x :: IsName(x) ==> FileAt(r, g, first, x) == None
    ensures AllUnique(r, g)
  {
    hide TreeOf, WellFormed, Owned, CacheAgrees, FilesKept, FirstFree, NewEntry, FileAt, FirstMatch, UniqueNames;
    hide SameLookups, IsValidEntry, Laid, DirImageSlots;
    DirImageNames(g, first, d);
    NewDirApart(s, g, first);
    MkdirNames(s, g, d, name, first);
    forall c, x | c in TreeOf(s, g) && IsName(x)
      ensures c in TreeOf(r, g) && FileAt(r, g, c, x) == FileAt(s, g, c, x)
    {
      MkdirOther(s, r, g, d, name, first, c, x);
    }
    forall x | IsName(x)
      ensures FileAt(r, g, first, x) == None
    {
      LookupNone(r, g, first, x);
    }
  }

  lemma NewDirApart(s: State, g: Geometry, first: u16)
    requires Consistent(s, g) && first !in s.chains && first != 0
    ensures first !in TreeOf(s, g)
  {
    hide TreeOf, WellFormed, Owned, CacheAgrees;
  }

  lemma MkdirNames(s: State, g: Geometry, d: u16, name: seq<byte>, first: u16)
    requires Consistent(s, g) && d in TreeOf(s, g) && IsName(name) && UniqueNames(TreeOf(s, g)[d])
             && HasRoom(TreeOf(s, g)[d], name)
    ensures UniqueNames(Entered(s, g, d, NewEntry(name, ATTR_DIRECTORY, first))[d])
  {
    hide TreeOf, WellFormed, Owned, CacheAgrees, UniqueNames, FirstMatch, NewEntry, IsValidEntry;
    var e := NewEntry(name, ATTR_DIRECTORY, first);
    assert NameOf(e)[0] == name[0] == e[0];
    NewDirValid(e);
    CreatedLookup(TreeOf(s, g)[d], e);
  }

  lemma NewDirValid(e: Slot)
    requires e[11] == ATTR_DIRECTORY && e[0] != 0
    ensures IsValidEntry(e) || e[0] == DELETED
    ensures IsDirectory(e)
  {
  }

  lemma MkdirOther(s: State, r: State, g: Geometry, d: u16, name: seq<byte>, first: u16, c: u16, x: seq<byte>)
    requires Consistent(s, g) && Consistent(r, g) && d in TreeOf(s, g) && IsName(name) && UniqueNames(TreeOf(s, g)[d])
    requires MkdirDone(s, r, g, d, name, first, true) && first != 0
    requires c in TreeOf(s, g) && IsName(x)
    ensures c in TreeOf(r, g) && FileAt(r, g, c, x) == FileAt(s, g, c, x)
  {
    hide TreeOf, WellFormed, Owned, CacheAgrees, FilesKept, FirstFree, NewEntry, FileAt, FirstMatch, IsValidEntry;
    hide Laid, DirImageSlots, UniqueNames, SameLookups;
    var v, e := TreeOf(s, g)[d], NewEntry(name, ATTR_DIRECTORY, first);
    assert NameOf(e)[0] == name[0] == e[0];
    NewDirValid(e);
    CreatedLookup(v, e);
    NewDirApart(s, g, first);
    if c == d && x == name {
      MkdirHidden(s, r, g, d, name, first);
    } else {
      OtherLookup(v, e, x);
      if c == d {
        VacantNoMatch(v, x);
      }
      FileSame(s, r, g, c, x, 0);
    }
  }

  lemma OtherLookup(v: seq<Slot>, e: Slot, x: seq<byte>)
    requires FirstMatch(Vacant, v) < |v| && SameLookups(v, PutSlot(v, FirstMatch(Vacant, v), e), NameOf(e))
    ensures x != NameOf(e) ==> FirstMatch(Named(x), PutSlot(v, FirstMatch(Vacant, v), e)) == FirstMatch(Named(x), v)
  {
  }

  // The new directory's own name does not stand for a file, before or after.
  lemma MkdirHidden(s: State, r: State, g: Geometry, d: u16, name: seq<byte>, first: u16)
    requires Consistent(s, g) && Consistent(r, g) && d in TreeOf(s, g) && IsName(name) && UniqueNames(TreeOf(s, g)[d])
    requires MkdirDone(s, r, g, d, name, first, true) && first != 0
    ensures d in TreeOf(r, g) && FileAt(r, g, d, name) == FileAt(s, g, d, name) == None
  {
    hide TreeOf, WellFormed, Owned, CacheAgrees, FilesKept, FirstFree, NewEntry, FirstMatch, IsValidEntry, Laid;
    hide DirImageSlots, UniqueNames, Content, FirstCluster;
    var v, e := TreeOf(s, g)[d], NewEntry(name, ATTR_DIRECTORY, first);
    assert NameOf(e)[0] == name[0] == e[0];
    NewDirValid(e);
    CreatedLookup(v, e);
    NewDirApart(s, g, first);
  }

  // ---------------------------------------------------------------- runs

  datatype Op =
    | CreateOp(d: u16, name: seq<byte>, first: u16)
    | MkdirOp(d: u16, name: seq<byte>, first: u16)
    | UnlinkOp(d: u16, name: seq<byte>, ok: bool, k: nat)
    | WriteOp(d: u16, name: seq<byte>, first: u16, size: nat, c: u16, n: nat, offset: nat, data: seq<byte>,
              written: int)

  // The operation took the volume from s to r; `reliable` says that the disk did not fail.
  ghost predicate Does(s: State, r: State, g: Geometry, op: Op, reliable: bool)
    requires Consistent(s, g) && Consistent(r, g)
  {
    && op.d in TreeOf(s, g) && IsName(op.name)
    && match op
       case CreateOp(d, name, first) => CreateDone(s, r, g, d, name, first, reliable)
       case MkdirOp(d, name, first) => MkdirDone(s, r, g, d, name, first, reliable)
       case UnlinkOp(d, name, ok, k) => UnlinkDone(s, r, g, d, name, ok, k, reliable)
       case WriteOp(d, name, first, size, c, n, offset, data, written) =>
         FileWritten(s, r, g, d, name, first, size, c, n, offset, data, written, reliable)
  }

  // A run: the states that the operations pass through, each of which satisfies the
  // invariant, as the methods of `Volume` ensure.
  ghost predicate IsRun(ss: seq<State>, ops: seq<Op>, g: Geometry, reliable: bool) {
    && |ss| == |ops| + 1
    && (forall i :: 0 <= i < |ss| ==> Consistent(ss[i], g))
    && forall i :: 0 <= i < |ops| ==> Does(ss[i], ss[i + 1], g, ops[i], reliable)
  }

  // The run without its last operation.
  lemma ShorterRun(ss: seq<State>, ops: seq<Op>, g: Geometry, reliable: bool)
    requires IsRun(ss, ops, g, reliable) && |ops| > 0
    ensures IsRun(ss[..|ss| - 1], ops[..|ops| - 1], g, reliable)
    ensures Consistent(ss[|ops| - 1], g) && Consistent(ss[|ops|], g)
    ensures Does(ss[|ops| - 1], ss[|ops|], g, ops[|ops| - 1], reliable)
  {
    hide Consistent, Does;
    var n := |ops| - 1;
    assert Does(ss[n], ss[n + 1], g, ops[n], reliable);
    var s1, o1 := ss[..|ss| - 1], ops[..n];
    forall i | 0 <= i < |o1|
      ensures Does(s1[i], s1[i + 1], g, o1[i], reliable)
    {
      assert Does(ss[i], ss[i + 1], g, ops[i], reliable);
    }
  }

  // ---------------------------------------------------------------- unique names

  /** A new entry in a vacant slot keeps names unique if and only if it looks deleted or its
      name was unused. */
  lemma UniquePut(v: seq<Slot>, k: nat, e: Slot)
    requires UniqueNames(v) && k < |v| && IsVacant(v[k]) && (IsValidEntry(e) || e[0] == DELETED)
    ensures UniqueNames(PutSlot(v, k, e)) <==> e[0] == DELETED || FirstMatch(Named(NameOf(e)), v) == |v|
  {
    hide FirstMatch, NameOf;
    var w, j := PutSlot(v, k, e), FirstMatch(Named(NameOf(e)), v);
    if j < |v| && e[0] != DELETED {
      assert Matches(Named(NameOf(e)), v[j]) && j != k;
      assert w[j] == v[j] && w[k] == e;
      if j < k {
        assert IsValidEntry(w[j]) && IsValidEntry(w[k]) && NameOf(w[j]) == NameOf(w[k]);
      } else {
        assert IsValidEntry(w[k]) && IsValidEntry(w[j]) && NameOf(w[k]) == NameOf(w[j]);
      }
    }
  }

  // The slots of directory d after an entry was, or was not, put into a vacant one.
  lemma UniqueFilled(v: map<u16, seq<Slot>>, w: map<u16, seq<Slot>>, d: u16, e: Slot, name: seq<byte>)
    requires d in v && UniqueNames(v[d]) && NameOf(e) == name && IsName(name)
             && (e[11] == ATTR_FILE || e[11] == ATTR_DIRECTORY)
    requires w == v || SlotFilled(v, w, d, e)
    ensures UniqueNames(w[d]) <==> w[d] == v[d] || name[0] == DELETED || FirstMatch(Named(name), v[d]) == |v[d]|
  {
    hide FirstMatch, UniqueNames, IsVacant, PutSlot;
    assert e[0] == NameOf(e)[0];
    if e[11] == ATTR_FILE {
      NewFileValid(e);
    } else {
      NewDirValid(e);
    }
    if w != v {
      var k: nat :| k < |v[d]| && IsVacant(v[d][k]) && w == v[d := PutSlot(v[d], k, e)];
      UniquePut(v[d], k, e);
    }
  }

  // The name of a created file or directory was not in use, or nothing was entered.
  ghost predicate Fresh(s: State, r: State, g: Geometry, op: Op)
    requires Shaped(s, g) && Shaped(r, g)
  {
    op.CreateOp? || op.MkdirOp? ==>
      op.d in TreeOf(s, g) && op.d in TreeOf(r, g) && |op.name| == 11 &&
      var v := TreeOf(s, g)[op.d];
      TreeOf(r, g)[op.d] == v || op.name[0] == DELETED || FirstMatch(Named(op.name), v) == |v|
  }

  /** Create keeps names unique if and only if the name was unused, starts with the deletion
      mark, or was not entered. */
  lemma CreateUnique(s: State, r: State, g: Geometry, d: u16, name: seq<byte>, first: u16, reliable: bool)
    requires Consistent(s, g) && Consistent(r, g) && d in TreeOf(s, g) && IsName(name) && AllUnique(s, g)
    requires CreateDone(s, r, g, d, name, first, reliable)
    ensures AllUnique(r, g) <==> Fresh(s, r, g, CreateOp(d, name, first))
  {
    hide TreeOf, WellFormed, Owned, CacheAgrees, FilesKept, FirstFree, NewEntry, FirstMatch, UniqueNames, Laid;
    hide SlotFilled;
    hide OnlyDir, Entered, CanCreate, NameOf;
    var v, w, e := TreeOf(s, g), TreeOf(r, g), NewEntry(name, ATTR_FILE, first);
    UniqueFilled(v, if first == 0 then v else w, d, e, name);
    assert w.Keys == v.Keys;
    if w != v {
      FilledElsewhere(v, w, d, e);
    }
  }

  lemma FilledElsewhere(v: map<u16, seq<Slot>>, w: map<u16, seq<Slot>>, d: u16, e: Slot)
    requires d in v && SlotFilled(v, w, d, e)
    ensures w.Keys == v.Keys && forall b :: b in v && b != d ==> w[b] == v[b]
  {
  }

  /** So does mkdir. */
  lemma MkdirUnique(s: State, r: State, g: Geometry, d: u16, name: seq<byte>, first: u16, reliable: bool)
    requires Consistent(s, g) && Consistent(r, g) && d in TreeOf(s, g) && IsName(name) && AllUnique(s, g)
    requires MkdirDone(s, r, g, d, name, first, reliable)
    ensures AllUnique(r, g) <==> Fresh(s, r, g, MkdirOp(d, name, first))
  {
    hide TreeOf, WellFormed, Owned, CacheAgrees, FilesKept, FirstFree, NewEntry, FirstMatch, UniqueNames, Laid;
    hide SlotFilled;
    hide Entered, CanCreate, NameOf, DirImageSlots;
    var w := TreeOf(r, g);
    if first != 0 {
      NewDirApart(s, g, first);
      DirImageNames(g, first, d);
      var v, e := TreeOf(s, g)[first := DirImageSlots(g, first, d)], NewEntry(name, ATTR_DIRECTORY, first);
      UniqueFilled(v, w, d, e, name);
      if w != v {
        FilledElsewhere(v, w, d, e);
      }
    }
  }

  /** Unlink always keeps names unique, on any disk. */
  lemma UnlinkUnique(s: State, r: State, g: Geometry, d: u16, name: seq<byte>, ok: bool, k: nat, reliable: bool)
    requires Consistent(s, g) && Consistent(r, g) && d in TreeOf(s, g) && AllUnique(s, g)
    requires UnlinkDone(s, r, g, d, name, ok, k, reliable)
    ensures AllUnique(r, g)
  {
    hide TreeOf, WellFormed, Owned, CacheAgrees, FilesKept, FirstMatch, Laid, FreeFrom, FreeSet, OnlyDir, UniqueNames;
    hide Deleted;
    hide Matches, FirstCluster;
    if ok || TreeOf(r, g) != TreeOf(s, g) {
      StruckUnique(TreeOf(s, g)[d], k);
    }
  }

  lemma StruckUnique(v: seq<Slot>, k: nat)
    requires UniqueNames(v) && k < |v|
    ensures UniqueNames(PutSlot(v, k, Deleted(v[k])))
  {
    hide NameOf;
  }

  /** So does a write, also through a node that goes by another file's name. */
  lemma WriteUnique(s: State, r: State, g: Geometry, d: u16, name: seq<byte>, first: u16, size: nat, c: u16, n: nat,
                    offset: nat, data: seq<byte>, written: int, reliable: bool)
    requires Consistent(s, g) && Shaped(r, g) && d in TreeOf(s, g) && AllUnique(s, g)
    requires FileWritten(s, r, g, d, name, first, size, c, n, offset, data, written, reliable)
    ensures forall b :: b in TreeOf(r, g) ==> UniqueNames(TreeOf(r, g)[b])
  {
    hide TreeOf, WellFormed, Owned, CacheAgrees, FilesKept, FirstMatch, Laid, WriteDone, UniqueNames, WithSize;
    hide Matches, PutSlot;
    if written >= 0 && TreeOf(r, g) != TreeOf(s, g) {
      var v := TreeOf(s, g);
      var k: nat :| k < |v[d]| && Matches(Named(name), v[d][k])
                    && TreeOf(r, g) == v[d := PutSlot(v[d], k, WithSize(v[d][k], c, n))];
      ResizedLookup(v[d], k, c, n);
    }
  }

  lemma OpUnique(s: State, r: State, g: Geometry, op: Op, reliable: bool)
    requires Consistent(s, g) && Consistent(r, g) && Does(s, r, g, op, reliable) && AllUnique(s, g)
    ensures AllUnique(r, g) <==> Fresh(s, r, g, op)
  {
    hide Consistent, CreateDone, MkdirDone, UnlinkDone, FileWritten, TreeOf, UniqueNames, FirstMatch;
    ShapedOf(s, g);
    ShapedOf(r, g);
    match op {
      case CreateOp(d, name, first) =>
        CreateUnique(s, r, g, d, name, first, reliable);
      case MkdirOp(d, name, first) =>
        MkdirUnique(s, r, g, d, name, first, reliable);
      case UnlinkOp(d, name, ok, k) =>
        UnlinkUnique(s, r, g, d, name, ok, k, reliable);
      case WriteOp(d, name, first, size, c, n, offset, data, written) =>
        WriteUnique(s, r, g, d, name, first, size, c, n, offset, data, written, reliable);
    }
  }

  /** In every run of create, mkdir, unlink and write, whatever the disk does, names are
      unique in every state if and only if every name that create or mkdir entered was
      unused or starts with the deletion mark. */
  lemma {:induction false} NamesUniqueIff(ss: seq<State>, ops: seq<Op>, g: Geometry, reliable: bool)
    requires IsRun(ss, ops, g, reliable) && AllUnique(ss[0], g)
    ensures (forall i :: 0 <= i <= |ops| ==> AllUnique(ss[i], g))
            <==> (forall i :: 0 <= i < |ops| ==> FreshAt(ss, ops, g, i))
    decreases |ops|
  {
    hide Consistent, AllUnique, Does, Fresh;
    if |ops| > 0 {
      var n := |ops| - 1;
      var s1, o1 := ss[..|ss| - 1], ops[..n];
      ShorterRun(ss, ops, g, reliable);
      NamesUniqueIff(s1, o1, g, reliable);
      assert forall i :: 0 <= i <= n ==> s1[i] == ss[i];
      assert forall i :: 0 <= i < n ==> FreshAt(s1, o1, g, i) == FreshAt(ss, ops, g, i);
      ShapedOf(ss[n], g);
      ShapedOf(ss[n + 1], g);
      assert FreshAt(ss, ops, g, n) == Fresh(ss[n], ss[n + 1], g, ops[n]);
      if AllUnique(ss[n], g) {
        OpUnique(ss[n], ss[n + 1], g, ops[n], reliable);
      }
    }
  }

  // Step i of the run entered no name that was in use.
  ghost predicate FreshAt(ss: seq<State>, ops: seq<Op>, g: Geometry, i: nat)
    requires |ss| == |ops| + 1 && i < |ops|
  {
    Shaped(ss[i], g) && Shaped(ss[i + 1], g) && Fresh(ss[i], ss[i + 1], g, ops[i])
  }

  /** On a disk that does not fail every created name was unused: the lookup that opens
      create and mkdir has seen the whole directory. */
  lemma ReliableIsFresh(s: State, r: State, g: Geometry, op: Op)
    requires Consistent(s, g) && Consistent(r, g) && Does(s, r, g, op, true)
    ensures Fresh(s, r, g, op)
  {
    hide TreeOf, Consistent, FilesKept, FirstMatch, SlotFilled, Entered, OnlyDir, UnlinkDone, FileWritten, NewEntry;
    hide DirImageSlots;
    ShapedOf(s, g);
    ShapedOf(r, g);
    if (op.CreateOp? || op.MkdirOp?) && op.first != 0 {
      NewDirApart(s, g, op.first);
    }
  }

  /** So in every run on a disk that does not fail, no directory ever holds two valid entries
      with the same 8.3 name. */
  lemma NamesStayUnique(ss: seq<State>, ops: seq<Op>, g: Geometry)
    requires IsRun(ss, ops, g, true) && AllUnique(ss[0], g)
    ensures forall i :: 0 <= i <= |ops| ==> AllUnique(ss[i], g)
  {
    hide Consistent, AllUnique, Does, Fresh;
    forall i | 0 <= i < |ops|
      ensures FreshAt(ss, ops, g, i)
    {
      assert Does(ss[i], ss[i + 1], g, ops[i], true);
      ShapedOf(ss[i], g);
      ShapedOf(ss[i + 1], g);
      ReliableIsFresh(ss[i], ss[i + 1], g, ops[i]);
    }
    NamesUniqueIff(ss, ops, g, true);
  }

  // ---------------------------------------------------------------- a clean table

  // A run on a disk that does not fail may be seen as one on a disk that might.
  lemma DoesWeaker(s: State, r: State, g: Geometry, op: Op)
    requires Consistent(s, g) && Consistent(r, g) && Does(s, r, g, op, true)
    ensures Does(s, r, g, op, false)
  {
    hide TreeOf, Consistent, FilesKept, FirstMatch, SlotFilled, Entered, OnlyDir, NewEntry, DirImageSlots, Removed;
    hide Struck, CanCreate;
    hide WithSize, Stored;
    ShapedOf(s, g);
    ShapedOf(r, g);
  }

  lemma OpClean(s: State, r: State, g: Geometry, op: Op)
    requires Consistent(s, g) && Consistent(r, g) && Does(s, r, g, op, true) && !s.dirty
    ensures !r.dirty && BootKept(s.disk, r.disk, g)
  {
    hide TreeOf, Consistent, FirstMatch, SlotFilled, Entered, OnlyDir, NewEntry, DirImageSlots, Removed, Struck;
    hide CanCreate;
    hide WithSize, Stored, EntryUpdated;
    ShapedOf(s, g);
    ShapedOf(r, g);
  }

  /** In every run on a disk that does not fail the table is clean after every operation, so
      the first FAT on disk is the table, and the boot sector stays. */
  lemma {:induction false} RunStaysClean(ss: seq<State>, ops: seq<Op>, g: Geometry)
    requires IsRun(ss, ops, g, true) && !ss[0].dirty
    ensures OnDisk(ss[|ops|].disk, g) && !ss[|ops|].dirty && BootKept(ss[0].disk, ss[|ops|].disk, g)
    ensures FatCopy(ss[|ops|].disk, g, 0) == Encode(ss[|ops|].t)
    decreases |ops|
  {
    hide TreeOf, Owned, Does, FatCopy, Encode, WellFormed, Laid;
    var n := |ops| - 1;
    if |ops| > 0 {
      ShorterRun(ss, ops, g, true);
      assert ss[..|ss| - 1][n] == ss[n] && ss[..|ss| - 1][0] == ss[0];
      RunStaysClean(ss[..|ss| - 1], ops[..n], g);
      OpClean(ss[n], ss[n + 1], g, ops[n]);
    }
    assert Consistent(ss[|ops|], g);
  }

  // ---------------------------------------------------------------- no cluster is lost

  ghost predicate OnChain(m: map<u16, seq<u16>>, c: u16) {
    exists b :: b in m && c in m[b]
  }

  // Every cluster is free or on a chain.
  ghost predicate Accounted(s: State, g: Geometry)
    requires Limit(g) <= |s.t|
  {
    forall c: u16 :: 2 <= c < Limit(g) ==> c in FreeSet(s.t, Limit(g)) || OnChain(s.chains, c)
  }

  lemma AllocAccounted(s: State, r: State, g: Geometry, first: u16)
    requires Limit(g) <= |s.t| && Accounted(s, g) && first < Limit(g)
    requires first !in s.chains && r.chains == s.chains[first := [first]] && r.t == s.t[first := EOC]
    ensures Accounted(r, g)
  {
    forall c: u16 | 2 <= c < Limit(g)
      ensures c in FreeSet(r.t, Limit(g)) || OnChain(r.chains, c)
    {
      if c == first {
        assert c in r.chains[first];
      } else if OnChain(s.chains, c) {
        var b :| b in s.chains && c in s.chains[b];
        assert b in r.chains && c in r.chains[b];
      }
    }
  }

  lemma FreeAccounted(s: State, r: State, g: Geometry, first: u16)
    requires Limit(g) <= |s.t| && Limit(g) <= |r.t| && Accounted(s, g) && first in s.chains
             && r.chains == s.chains - {first}
    requires FreeSet(r.t, Limit(g)) == FreeSet(s.t, Limit(g)) + Elements(s.chains[first])
    ensures Accounted(r, g)
  {
    hide FreeSet;
    forall c: u16 | 2 <= c < Limit(g)
      ensures c in FreeSet(r.t, Limit(g)) || OnChain(r.chains, c)
    {
      if c !in FreeSet(s.t, Limit(g)) {
        var b :| b in s.chains && c in s.chains[b];
        if b != first {
          assert b in r.chains && c in r.chains[b];
        }
      }
    }
  }

  lemma GrowAccounted(s: State, g: Geometry, c: u16, needed: nat)
    requires Shaped(s, g) && g.Valid() && c in s.chains && Accounted(s, g)
    ensures Limit(g) <= |Grown(s, g, c, needed).t| && Accounted(Grown(s, g, c, needed), g)
  {
    hide Extended, FreeSet, WellFormed, Laid;
    var r := Grown(s, g, c, needed);
    ChainIn(s, g, c);
    ExtendUsesFree(s.t, Limit(g), s.chains[c], needed);
    forall b: u16 | 2 <= b < Limit(g)
      ensures b in FreeSet(r.t, Limit(g)) || OnChain(r.chains, b)
    {
      if b !in FreeSet(r.t, Limit(g)) {
        if b in FreeSet(s.t, Limit(g)) {
          assert b in Elements(r.chains[c]);
        } else {
          var a :| a in s.chains && b in s.chains[a];
          assert a == c ==> b in Elements(s.chains[c]);
          assert a in r.chains && (a != c ==> b in r.chains[a]);
        }
      }
    }
  }

  lemma ChainIn(s: State, g: Geometry, c: u16)
    requires Shaped(s, g) && c in s.chains
    ensures IsChain(s.t, Limit(g), s.chains[c]) && 2 <= Limit(g) <= |s.t| && Limit(g) <= EOC
  {
  }

  lemma OpAccounted(s: State, r: State, g: Geometry, op: Op, reliable: bool)
    requires Consistent(s, g) && Consistent(r, g) && Does(s, r, g, op, reliable) && Accounted(s, g)
    ensures Accounted(r, g)
  {
    hide TreeOf, FilesKept, Entered, Struck, WithSize, CanCreate, SlotFilled, EntryUpdated, FreeFrom, FreeSet;
    hide FirstFree, WellFormed, Owned, CacheAgrees, Laid, Accounted, Grown, Span, FileBytes, Matches, FirstMatch;
    match op {
      case CreateOp(d, name, first) =>
        if first != 0 {
          AllocAccounted(s, r, g, first);
        } else {
          SameAccounted(s, r, g);
        }
      case MkdirOp(d, name, first) =>
        if first != 0 {
          AllocAccounted(s, r, g, first);
        } else {
          SameAccounted(s, r, g);
        }
      case UnlinkOp(d, name, ok, k) =>
        if ok && FirstCluster(TreeOf(s, g)[d][k]) != 0 {
          FreeAccounted(s, r, g, FirstCluster(TreeOf(s, g)[d][k]));
        } else {
          SameAccounted(s, r, g);
        }
      case WriteOp(d, name, first, size, c, n, offset, data, written) =>
        if written >= 0 {
          WriteAccounted(s, r, g, first, c, offset, data, written, reliable);
        } else {
          SameAccounted(s, r, g);
        }
    }
  }

  lemma SameAccounted(s: State, r: State, g: Geometry)
    requires Limit(g) <= |s.t| && Accounted(s, g) && r.t == s.t && r.chains == s.chains
    ensures Accounted(r, g)
  {
  }

  lemma WriteAccounted(s: State, r: State, g: Geometry, first: u16, c: u16, offset: nat, data: seq<byte>, written: nat,
                       reliable: bool)
    requires Consistent(s, g) && Consistent(r, g) && Accounted(s, g)
             && WriteDone(s, r, g, first, c, offset, data, written, reliable)
    ensures Accounted(r, g)
  {
    hide TreeOf, FilesKept, FreeSet, FirstFree, WellFormed, Owned, CacheAgrees, Laid, Accounted, Grown, Span;
    hide FileBytes, NeededClusters;
    var s0 := WithFirst(s, first, c);
    if first == 0 {
      AllocAccounted(s, s0, g, c);
    }
    GrowAccounted(s0, g, c, NeededClusters(g, offset, |data|));
    SameAccounted(Grown(s0, g, c, NeededClusters(g, offset, |data|)), r, g);
  }

  /** In every run, on any disk, every cluster stays accounted for: it is free and on no
      chain, or it is used and on exactly one. */
  lemma {:induction false} NoClusterLost(ss: seq<State>, ops: seq<Op>, g: Geometry, reliable: bool)
    requires IsRun(ss, ops, g, reliable) && Accounted(ss[0], g)
    ensures Accounted(ss[|ops|], g)
    ensures var s := ss[|ops|];
            forall c: u16 :: 2 <= c < Limit(g) ==>
              && (OnChain(s.chains, c) <==> s.t[c] != FREE)
              && forall a, b :: a in s.chains && b in s.chains && c in s.chains[a] && c in s.chains[b] ==> a == b
    decreases |ops|
  {
    hide Accounted, Does, Consistent;
    var n := |ops| - 1;
    if |ops| > 0 {
      ShorterRun(ss, ops, g, reliable);
      assert ss[..|ss| - 1][n] == ss[n] && ss[..|ss| - 1][0] == ss[0];
      NoClusterLost(ss[..|ss| - 1], ops[..n], g, reliable);
      ShapedOf(ss[n], g);
      OpAccounted(ss[n], ss[n + 1], g, ops[n], reliable);
    }
    ShapedOf(ss[|ops|], g);
    forall c: u16 | 2 <= c < Limit(g)
      ensures OnChain(ss[|ops|].chains, c) <==> ss[|ops|].t[c] != FREE
      ensures forall a, b :: a in ss[|ops|].chains && b in ss[|ops|].chains
                             && c in ss[|ops|].chains[a] && c in ss[|ops|].chains[b] ==>
                a == b
    {
      ExactlyOne(ss[|ops|], g, c);
    }
  }

  lemma ExactlyOne(s: State, g: Geometry, c: u16)
    requires Shaped(s, g) && Accounted(s, g) && 2 <= c < Limit(g)
    ensures OnChain(s.chains, c) <==> s.t[c] != FREE
    ensures forall a, b :: a in s.chains && b in s.chains && c in s.chains[a] && c in s.chains[b] ==> a == b
  {
    hide IsChain, Laid;
    if OnChain(s.chains, c) {
      var b :| b in s.chains && c in s.chains[b];
      var i :| 0 <= i < |s.chains[b]| && s.chains[b][i] == c;
      ChainNotFree(s.t, Limit(g), s.chains[b], i);
    }
  }

  /** From a formatted volume on: nothing on any chain, everything free. */
  lemma FormattedAccounted(s: State, g: Geometry)
    requires Limit(g) <= |s.t| && s.chains == map[] && forall c: u16 :: 2 <= c < Limit(g) ==>
               c in FreeSet(s.t, Limit(g))
    ensures Accounted(s, g)
  {
  }

  // ---------------------------------------------------------------- owners

  ghost predicate HasOwner(v: map<u16, seq<Slot>>, c: u16) {
    exists d, k: nat :: Owns(v, d, k) && FirstCluster(v[d][k]) == c
  }

  // The entry names no directory, or one whose slots own nothing (but themselves).
  ghost predicate Childless(v: map<u16, seq<Slot>>, d: u16, k: nat)
    requires d in v && k < |v[d]|
  {
    var f := FirstCluster(v[d][k]);
    f != 0 && IsDirectory(v[d][k]) ==> forall j: nat :: Owns(v, f, j) ==> f == d && j == k
  }

  // What removing entry k of directory d, and the directories in gone, leaves of the owners.
  lemma OwnersAfter(v: map<u16, seq<Slot>>, d: u16, k: nat, gone: set<u16>, b: u16, j: nat)
    requires d in v && k < |v[d]|
    ensures var w := v[d := PutSlot(v[d], k, Deleted(v[d][k]))] - gone;
            && (Owns(w, b, j) <==> Owns(v, b, j) && b !in gone && (b != d || j != k))
            && (Owns(w, b, j) ==> w[b][j] == v[b][j])
  {
    hide FirstCluster, IsDirectory;
  }

  // The chain of an entry in the removed directory is left without an owner.
  lemma ChildOrphaned(v: map<u16, seq<Slot>>, w: map<u16, seq<Slot>>, chains: set<u16>, dirs: set<u16>, d: u16, k: nat,
                      j: nat)
    requires Owned(v, chains, dirs) && d in v && k < |v[d]| && Owning(v[d][k])
    requires var f := FirstCluster(v[d][k]);
             && f != 0 && w == v[d := PutSlot(v[d], k, Deleted(v[d][k]))] - {f}
             && Owns(v, f, j) && !(f == d && j == k)
    ensures var c := FirstCluster(v[FirstCluster(v[d][k])][j]);
            c != FirstCluster(v[d][k]) && HasOwner(v, c) && !HasOwner(w, c)
  {
    hide FirstCluster, IsDirectory, Owning;
    var f := FirstCluster(v[d][k]);
    assert Owns(v, d, k);
    var c := FirstCluster(v[f][j]);
    assert c != f && HasOwner(v, c);
    forall b: u16, i: nat | Owns(w, b, i)
      ensures FirstCluster(w[b][i]) != c
    {
      OwnersAfter(v, d, k, {f}, b, i);
    }
  }

  lemma OrphansIff(v: map<u16, seq<Slot>>, w: map<u16, seq<Slot>>, chains: set<u16>, dirs: set<u16>, d: u16, k: nat)
    requires Owned(v, chains, dirs) && v.Keys == dirs + {0} && d in v && k < |v[d]| && Owning(v[d][k])
    requires var f := FirstCluster(v[d][k]);
             w == v[d := PutSlot(v[d], k, Deleted(v[d][k]))] - (if f == 0 then {} else {f})
    ensures (forall c :: c != FirstCluster(v[d][k]) && HasOwner(v, c) ==> HasOwner(w, c)) <==> Childless(v, d, k)
  {
    hide FirstCluster, IsDirectory, Owning;
    var f := FirstCluster(v[d][k]);
    var gone := if f == 0 then {} else {f};
    forall b: u16, j: nat
      ensures Owns(w, b, j) <==> Owns(v, b, j) && b !in gone && (b != d || j != k)
      ensures Owns(w, b, j) ==> w[b][j] == v[b][j]
    {
      OwnersAfter(v, d, k, gone, b, j);
    }
    if Childless(v, d, k) {
      forall c | c != f && HasOwner(v, c)
        ensures HasOwner(w, c)
      {
        var b, j: nat :| Owns(v, b, j) && FirstCluster(v[b][j]) == c;
        assert f != 0 ==> Owns(v, d, k);
        assert Owns(w, b, j);
      }
    } else {
      var j: nat :| Owns(v, f, j) && !(f == d && j == k);
      ChildOrphaned(v, w, chains, dirs, d, k, j);
    }
  }

  /** After a successful unlink (or rmdir) every other chain that had an owner still has
      one, if and only if the removed entry names no directory or one that owns nothing:
      the children of a removed directory are left without an owner. */
  lemma UnlinkOrphans(s: State, r: State, g: Geometry, d: u16, name: seq<byte>, k: nat, reliable: bool)
    requires Consistent(s, g) && Consistent(r, g) && d in TreeOf(s, g) && IsName(name)
    requires UnlinkDone(s, r, g, d, name, true, k, reliable)
    ensures k < |TreeOf(s, g)[d]|
    ensures (forall c :: c != FirstCluster(TreeOf(s, g)[d][k]) && HasOwner(TreeOf(s, g), c) ==>
             HasOwner(TreeOf(r, g), c))
            <==> Childless(TreeOf(s, g), d, k)
  {
    hide TreeOf, WellFormed, CacheAgrees, FilesKept, FirstMatch, Laid, FreeFrom, FreeSet, FirstCluster, IsDirectory;
    hide Owns, Owned, HasOwner, Childless, PutSlot, Deleted;
    var v, w, f := TreeOf(s, g), TreeOf(r, g), FirstCluster(TreeOf(s, g)[d][k]);
    assert NameOf(v[d][k])[0] == name[0];
    var t := v[d := PutSlot(v[d], k, Deleted(v[d][k]))];
    assert t - {} == t;
    OrphansIff(v, w, s.chains.Keys, s.dirs, d, k);
  }
}
