/**
 Two address spaces in one physical memory: the kernel's, through which the loader
 writes, and the task's, which it fills.  What each single store keeps of both.
 */
module TaskSpace {
  import opened Paging
  import opened Vmm

  // Directory indices that belong to the task alone (vmm_create_as shares the others).
  predicate UserDir(d: nat) {
    32 <= d < 768
  }

  predicate UserPage(vp: nat) {
    vp < PAGES && UserDir(DirIndex(vp))
  }

  // Kernel pages that the loader maps for a moment: 0xF0000000 and 16 MiB from 0xE0000000.
  predicate Scratch(vp: nat) {
    vp == 0xF_0000 || 0xE_0000 <= vp < 0xE_1000
  }

  lemma ScratchDir(vp: nat)
    requires Scratch(vp)
    ensures vp < PAGES && DirIndex(vp) in ScratchDirs() && !UserDir(DirIndex(vp))
  {
  }

  function ScratchDirs(): set<nat> {
    {896, 897, 898, 899, 960}
  }

  /** Both spaces are well formed, use no free frame, and the task's own tables are not
      the kernel's. */
  ghost predicate Joint(mem: seq<Frame>, kpd: nat, tpd: nat, free: set<nat>) {
    && SpaceOk(mem, kpd) && SpaceOk(mem, tpd)
    && Held(mem, kpd, free) && Held(mem, tpd, free)
    && Outside(mem, tpd, kpd) && Outside(mem, kpd, tpd)
    && forall d: nat :: d < 1024 && UserDir(d) && HasTable(mem, tpd, d) ==> Outside(mem, kpd, TableFrame(mem, tpd, d))
  }

  // A frame in use that is part of neither space's tables.
  ghost predicate Plain(mem: seq<Frame>, kpd: nat, tpd: nat, free: set<nat>, f: nat)
    requires kpd < |mem| && tpd < |mem|
  {
    f < |mem| && f !in free && Outside(mem, kpd, f) && Outside(mem, tpd, f)
  }

  // All plain frames but those in except stay plain and keep their contents.
  ghost predicate Kept(a: seq<Frame>, fa: set<nat>, b: seq<Frame>, fb: set<nat>, kpd: nat, tpd: nat, except: set<nat>)
    requires kpd < |a| && tpd < |a|
  {
    && |a| == |b| && fb <= fa
    && forall f: nat :: f < |a| && Plain(a, kpd, tpd, fa, f) && f !in except ==>
         Plain(b, kpd, tpd, fb, f) && b[f] == a[f]
  }

  lemma KeptTrans(a: seq<Frame>, fa: set<nat>, b: seq<Frame>, fb: set<nat>, c: seq<Frame>, fc: set<nat>, kpd: nat,
                  tpd: nat, except: set<nat>)
    requires kpd < |a| && tpd < |a| && kpd < |b| && tpd < |b|
    requires Kept(a, fa, b, fb, kpd, tpd, {}) && Kept(b, fb, c, fc, kpd, tpd, except) && except <= fa
    ensures Kept(a, fa, c, fc, kpd, tpd, {})
  {
    hide Plain;
    forall f: nat | f < |a| && Plain(a, kpd, tpd, fa, f)
      ensures Plain(c, kpd, tpd, fc, f) && c[f] == a[f]
    {
      PlainUsed(a, kpd, tpd, fa, f);
    }
  }

  lemma PlainUsed(mem: seq<Frame>, kpd: nat, tpd: nat, free: set<nat>, f: nat)
    requires kpd < |mem| && tpd < |mem| && Plain(mem, kpd, tpd, free, f)
    ensures f < |mem| && f !in free
  {
  }

  // The task's own pages have the same entries.
  ghost predicate UserSame(a: seq<Frame>, b: seq<Frame>, tpd: nat)
    requires SpaceOk(a, tpd) && SpaceOk(b, tpd)
  {
    forall q: nat :: UserPage(q) ==> Pte(b, tpd, q) == Pte(a, tpd, q)
  }

  // The kernel's pages outside the scratch pages have the same entries.
  ghost predicate KernelSame(a: seq<Frame>, b: seq<Frame>, kpd: nat)
    requires SpaceOk(a, kpd) && SpaceOk(b, kpd)
  {
    forall q: nat :: q < PAGES && !Scratch(q) ==> Pte(b, kpd, q) == Pte(a, kpd, q)
  }

  // The task's directory has the entries it had, and perhaps new tables of its own, with
  // PRESENT, WRITE and USER.
  ghost predicate TablesAdded(a: seq<Frame>, b: seq<Frame>, tpd: nat)
    requires tpd < |a| && tpd < |b|
  {
    forall d: nat :: d < 1024 ==>
      || Entry(b, tpd, d) == Entry(a, tpd, d)
      || (!HasTable(a, tpd, d) && UserDir(d) && FlagsOf(Entry(b, tpd, d)) == 7)
  }

  lemma AddedTrans(a: seq<Frame>, b: seq<Frame>, c: seq<Frame>, tpd: nat)
    requires tpd < |a| && tpd < |b| && tpd < |c| && TablesAdded(a, b, tpd) && TablesAdded(b, c, tpd)
    ensures TablesAdded(a, c, tpd)
  {
    hide Word;
    forall d: nat | d < 1024
      ensures || Entry(c, tpd, d) == Entry(a, tpd, d)
              || (!HasTable(a, tpd, d) && UserDir(d) && FlagsOf(Entry(c, tpd, d)) == 7)
    {
      LowBits(Entry(b, tpd, d));
    }
  }

  lemma NoneAdded(a: seq<Frame>, b: seq<Frame>, tpd: nat)
    requires tpd < |a| && tpd < |b| && a[tpd] == b[tpd]
    ensures TablesAdded(a, b, tpd)
  {
  }

  // The directory indices among dirs that have no table.
  ghost function Lacking(mem: seq<Frame>, pd: nat, dirs: set<nat>): set<nat>
    requires pd < |mem|
  {
    set d | d in dirs && d < 1024 && !HasTable(mem, pd, d)
  }

  // Free frames beyond those that the missing tables of both spaces need.
  ghost function Slack(mem: seq<Frame>, kpd: nat, tpd: nat, free: set<nat>, dirs: set<nat>): int
    requires kpd < |mem| && tpd < |mem|
  {
    |free| - |Lacking(mem, tpd, dirs)| - |Lacking(mem, kpd, ScratchDirs())|
  }

  lemma LackingSame(a: seq<Frame>, b: seq<Frame>, pd: nat, dirs: set<nat>)
    requires pd < |a| == |b| && forall d :: 0 <= d < 1024 ==> HasTable(a, pd, d) == HasTable(b, pd, d)
    ensures Lacking(a, pd, dirs) == Lacking(b, pd, dirs)
  {
  }

  lemma LackingLess(a: seq<Frame>, b: seq<Frame>, pd: nat, d: nat, dirs: set<nat>)
    requires pd < |a| == |b| && d < 1024 && d in dirs && !HasTable(a, pd, d) && HasTable(b, pd, d)
    requires forall c :: 0 <= c < 1024 && c != d ==> HasTable(a, pd, c) == HasTable(b, pd, c)
    ensures |Lacking(b, pd, dirs)| == |Lacking(a, pd, dirs)| - 1
  {
    assert Lacking(b, pd, dirs) == Lacking(a, pd, dirs) - {d};
  }

  // The directory frame is the same, so the same tables are.
  lemma SameTables(a: seq<Frame>, b: seq<Frame>, pd: nat)
    requires pd < |a| == |b| && a[pd] == b[pd]
    ensures forall d :: 0 <= d < 1024 ==>
              HasTable(a, pd, d) == HasTable(b, pd, d) && TableFrame(a, pd, d) == TableFrame(b, pd, d)
    ensures forall f: nat :: Outside(a, pd, f) <==> Outside(b, pd, f)
    ensures SpaceOk(a, pd) <==> SpaceOk(b, pd)
    ensures forall free :: Held(a, pd, free) <==> Held(b, pd, free)
  {
  }

  // ---------------------------------------------------------------- one page in the kernel

  /** vmm_map_page on a scratch page of the kernel. */
  lemma KernelMap(mem: seq<Frame>, kpd: nat, tpd: nat, vp: nat, v: u32, spare: nat, dirFlags: nat, free: set<nat>,
                  dirs: set<nat>)
    requires Joint(mem, kpd, tpd, free) && Scratch(vp) && dirFlags < 4096 && dirFlags % 2 == 1
    requires vp < PAGES && (HasTable(mem, kpd, DirIndex(vp)) || (spare in free && spare < |mem| && spare < PAGES))
    ensures HasTable(mem, kpd, DirIndex(vp)) || Outside(mem, kpd, spare)
    ensures var r := Mapped(mem, kpd, vp, v, spare, dirFlags);
            var fr := if HasTable(mem, kpd, DirIndex(vp)) then free else free - {spare};
            && Joint(r, kpd, tpd, fr) && Kept(mem, free, r, fr, kpd, tpd, {})
            && UserSame(mem, r, tpd) && KernelSame(mem, r, kpd) && Pte(r, kpd, vp) == v
            && HasTable(r, kpd, DirIndex(vp)) && r[tpd] == mem[tpd]
            && (forall d: nat :: d < 1024 && UserDir(d) && HasTable(mem, tpd, d) ==>
                r[TableFrame(mem, tpd, d)] == mem[TableFrame(mem, tpd, d)])
            && Slack(r, kpd, tpd, fr, dirs) == Slack(mem, kpd, tpd, free, dirs)
  {
    hide Word, FrameOf, IsPresent, Mapped, Pte, Lacking;
    ScratchDir(vp);
    MapStep(mem, kpd, vp, v, spare, dirFlags, free);
    var r := Mapped(mem, kpd, vp, v, spare, dirFlags);
    var had := HasTable(mem, kpd, DirIndex(vp));
    var fr := if had then free else free - {spare};
    MappedUpdates(mem, kpd, vp, v, spare, dirFlags);
    assert forall c :: 0 <= c < 1024 && c != DirIndex(vp) ==>
      HasTable(r, kpd, c) == HasTable(mem, kpd, c) && TableFrame(r, kpd, c) == TableFrame(mem, kpd, c);
    assert forall f: nat :: f !in free && Outside(mem, kpd, f) ==> Outside(r, kpd, f);
    SameTables(mem, r, tpd);
    assert Joint(r, kpd, tpd, fr);
    UserTablesKept(mem, r, kpd, tpd, free);
    LackingSame(mem, r, tpd, dirs);
    if had {
      LackingSame(mem, r, kpd, ScratchDirs());
    } else {
      LackingLess(mem, r, kpd, DirIndex(vp), ScratchDirs());
    }
  }

  lemma UserTablesKept(a: seq<Frame>, b: seq<Frame>, kpd: nat, tpd: nat, free: set<nat>)
    requires Joint(a, kpd, tpd, free) && |a| == |b| && a[tpd] == b[tpd] && SpaceOk(b, tpd)
    requires OthersKept(a, b, kpd, free)
    ensures forall d: nat :: d < 1024 && UserDir(d) && HasTable(a, tpd, d) ==>
              b[TableFrame(a, tpd, d)] == a[TableFrame(a, tpd, d)]
    ensures UserSame(a, b, tpd)
  {
    hide Word, FrameOf, IsPresent;
    SameTables(a, b, tpd);
  }

  /** Clearing the entry of a scratch page. */
  lemma KernelClear(mem: seq<Frame>, kpd: nat, tpd: nat, vp: nat, free: set<nat>, dirs: set<nat>)
    requires Joint(mem, kpd, tpd, free) && Scratch(vp) && vp < PAGES && HasTable(mem, kpd, DirIndex(vp))
    ensures var r := WithEntry(mem, TableFrame(mem, kpd, DirIndex(vp)), TableIndex(vp), 0);
            && Joint(r, kpd, tpd, free) && Kept(mem, free, r, free, kpd, tpd, {})
            && UserSame(mem, r, tpd) && KernelSame(mem, r, kpd) && Pte(r, kpd, vp) == 0 && r[tpd] == mem[tpd]
            && Slack(r, kpd, tpd, free, dirs) == Slack(mem, kpd, tpd, free, dirs)
  {
    hide Word, FrameOf, IsPresent, WithEntry, Pte, Lacking;
    var r := WithEntry(mem, TableFrame(mem, kpd, DirIndex(vp)), TableIndex(vp), 0);
    SetPte(mem, kpd, vp, 0);
    SameTables(mem, r, kpd);
    SameTables(mem, r, tpd);
    UserTablesKept(mem, r, kpd, tpd, free);
    LackingSame(mem, r, tpd, dirs);
    LackingSame(mem, r, kpd, ScratchDirs());
  }

  // ---------------------------------------------------------------- stores into plain frames

  /** A store into a plain frame changes no translation. */
  lemma PlainWrite(mem: seq<Frame>, kpd: nat, tpd: nat, f: nat, contents: Frame, free: set<nat>, dirs: set<nat>)
    requires Joint(mem, kpd, tpd, free) && Plain(mem, kpd, tpd, free, f)
    ensures var r := mem[f := contents];
            && Joint(r, kpd, tpd, free) && Kept(mem, free, r, free, kpd, tpd, {f}) && Plain(r, kpd, tpd, free, f)
            && UserSame(mem, r, tpd) && (forall q: nat :: q < PAGES ==> Pte(r, kpd, q) == Pte(mem, kpd, q))
            && r[tpd] == mem[tpd] && r[kpd] == mem[kpd]
            && Slack(r, kpd, tpd, free, dirs) == Slack(mem, kpd, tpd, free, dirs)
  {
    hide Word, FrameOf, IsPresent, Lacking;
    var r := mem[f := contents];
    SameTables(mem, r, kpd);
    SameTables(mem, r, tpd);
    LackingSame(mem, r, tpd, dirs);
    LackingSame(mem, r, kpd, ScratchDirs());
  }

  /** A cleared plain frame becomes a table of the task. */
  lemma TaskTable(mem: seq<Frame>, kpd: nat, tpd: nat, d: nat, f: nat, free: set<nat>, dirs: set<nat>)
    requires Joint(mem, kpd, tpd, free) && Plain(mem, kpd, tpd, free, f) && mem[f] == ZeroFrame() && f < PAGES
    requires d < 1024 && UserDir(d) && !HasTable(mem, tpd, d) && d in dirs
    ensures var r := WithEntry(mem, tpd, d, MakeEntry(f, 7));
            && Joint(r, kpd, tpd, free) && Kept(mem, free, r, free, kpd, tpd, {f})
            && UserSame(mem, r, tpd) && (forall q: nat :: q < PAGES ==> Pte(r, kpd, q) == Pte(mem, kpd, q))
            && HasTable(r, tpd, d) && TableFrame(r, tpd, d) == f && TablesAdded(mem, r, tpd)
            && Slack(r, kpd, tpd, free, dirs) == Slack(mem, kpd, tpd, free, dirs) + 1
  {
    hide Word, FrameOf, IsPresent, Lacking, WithEntry, MakeEntry, Pte;
    var r := WithEntry(mem, tpd, d, MakeEntry(f, 7));
    assert Cleared(mem, f) == mem;
    NewTable(mem, tpd, d, f, 7);
    assert r == WithTable(mem, tpd, d, f, 7);
    SameTables(mem, r, kpd);
    assert forall c :: 0 <= c < 1024 && c != d ==>
      HasTable(r, tpd, c) == HasTable(mem, tpd, c) && TableFrame(r, tpd, c) == TableFrame(mem, tpd, c);
    KernelWalkSame(mem, r, kpd);
    LackingLess(mem, r, tpd, d, dirs);
    LackingSame(mem, r, kpd, ScratchDirs());
  }

  lemma KernelWalkSame(a: seq<Frame>, b: seq<Frame>, pd: nat)
    requires SpaceOk(a, pd) && |a| == |b| && SpaceOk(b, pd)
    requires forall f: nat :: f < |a| && !Outside(a, pd, f) ==> b[f] == a[f]
    ensures forall q: nat :: q < PAGES ==> Pte(b, pd, q) == Pte(a, pd, q)
  {
    hide Word, FrameOf, IsPresent;
    assert !Outside(a, pd, pd);
    assert forall d :: 0 <= d < 1024 && HasTable(a, pd, d) ==> !Outside(a, pd, TableFrame(a, pd, d));
    SameTables(a, b, pd);
  }

  /** Writing an entry of one of the task's own tables. */
  lemma TaskEntry(mem: seq<Frame>, kpd: nat, tpd: nat, vp: nat, v: u32, free: set<nat>, dirs: set<nat>)
    requires Joint(mem, kpd, tpd, free) && UserPage(vp) && HasTable(mem, tpd, DirIndex(vp))
    ensures var r := WithEntry(mem, TableFrame(mem, tpd, DirIndex(vp)), TableIndex(vp), v);
            && Joint(r, kpd, tpd, free) && Kept(mem, free, r, free, kpd, tpd, {})
            && (forall q: nat :: UserPage(q) ==> Pte(r, tpd, q) == if q == vp then v else Pte(mem, tpd, q))
            && r[tpd] == mem[tpd]
            && (forall q: nat :: q < PAGES ==> Pte(r, kpd, q) == Pte(mem, kpd, q))
            && Slack(r, kpd, tpd, free, dirs) == Slack(mem, kpd, tpd, free, dirs)
  {
    hide Word, FrameOf, IsPresent, Lacking, WithEntry, Pte;
    var r := WithEntry(mem, TableFrame(mem, tpd, DirIndex(vp)), TableIndex(vp), v);
    SetPte(mem, tpd, vp, v);
    SameTables(mem, r, tpd);
    assert r[kpd] == mem[kpd];
    SameTables(mem, r, kpd);
    KernelWalkSame(mem, r, kpd);
    LackingSame(mem, r, tpd, dirs);
    LackingSame(mem, r, kpd, ScratchDirs());
  }
}
