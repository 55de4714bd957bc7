/**
 The ELF loader of kernel/elf.c.  It fills the task's address space while the kernel's
 is current: every store into a task table or page goes through a scratch page that is
 mapped in the kernel's tables and cleared again.
 */
module Elf {
  import opened Paging
  import opened Pmm
  import opened Vmm
  import opened TaskSpace
  import opened ElfImage

  const TABLE_WINDOW: nat := 0xF_0000      // page number of 0xF0000000

  // Fault: a store through a scratch page that could not be mapped.
  datatype Outcome = Loaded | Refused | NoMemory | Fault

  // The page of the data window: 0xE0000000 + (phys & 0xFFFFFF).
  function DataWindow(frame: nat): (r: nat)
    ensures Scratch(r) && r < PAGES
  {
    0xE_0000 + frame % 0x1000
  }

  // From one point of the load to a later one: both spaces stay well formed, frames in
  // use keep their contents, and the kernel's own pages stay mapped as they were.
  ghost predicate Progress(a: seq<Frame>, fa: set<nat>, b: seq<Frame>, fb: set<nat>, kpd: nat, tpd: nat) {
    && Joint(a, kpd, tpd, fa) && Joint(b, kpd, tpd, fb)
    && Kept(a, fa, b, fb, kpd, tpd, {}) && KernelSame(a, b, kpd) && TablesAdded(a, b, tpd)
  }

  lemma ProgressTrans(a: seq<Frame>, fa: set<nat>, b: seq<Frame>, fb: set<nat>, c: seq<Frame>, fc: set<nat>, kpd: nat,
                      tpd: nat)
    requires Progress(a, fa, b, fb, kpd, tpd) && Progress(b, fb, c, fc, kpd, tpd)
    ensures Progress(a, fa, c, fc, kpd, tpd)
  {
    hide Joint, Kept, Pte, TablesAdded;
    JointSpaces(a, kpd, tpd, fa);
    JointSpaces(b, kpd, tpd, fb);
    JointSpaces(c, kpd, tpd, fc);
    AddedTrans(a, b, c, tpd);
    KeptTrans(a, fa, b, fb, c, fc, kpd, tpd, {});
  }

  lemma JointSpaces(mem: seq<Frame>, kpd: nat, tpd: nat, free: set<nat>)
    requires Joint(mem, kpd, tpd, free)
    ensures SpaceOk(mem, kpd) && SpaceOk(mem, tpd) && kpd < |mem| && tpd < |mem| && kpd != tpd
    ensures Held(mem, kpd, free)
  {
  }

  lemma JointProgress(mem: seq<Frame>, kpd: nat, tpd: nat, free: set<nat>)
    requires Joint(mem, kpd, tpd, free)
    ensures Progress(mem, free, mem, free, kpd, tpd)
  {
  }

  // A store into a frame taken since a.
  lemma ProgressWrite(a: seq<Frame>, fa: set<nat>, b: seq<Frame>, fb: set<nat>, c: seq<Frame>, kpd: nat, tpd: nat,
                      f: nat)
    requires Progress(a, fa, b, fb, kpd, tpd) && f in fa && Joint(c, kpd, tpd, fb)
    requires tpd < |b| && tpd < |c| && TablesAdded(b, c, tpd)
    requires Kept(b, fb, c, fb, kpd, tpd, {f}) && forall q: nat :: q < PAGES ==> Pte(c, kpd, q) == Pte(b, kpd, q)
    ensures Progress(a, fa, c, fb, kpd, tpd)
  {
    hide Joint, Kept, Pte, TablesAdded;
    JointSpaces(a, kpd, tpd, fa);
    JointSpaces(b, kpd, tpd, fb);
    AddedTrans(a, b, c, tpd);
    KeptTrans(a, fa, b, fb, c, fb, kpd, tpd, {f});
  }

  // A frame taken from the free ones is plain.
  lemma Taken(mem: seq<Frame>, kpd: nat, tpd: nat, free: set<nat>, f: nat, dirs: set<nat>)
    requires Joint(mem, kpd, tpd, free) && f in free && f < |mem|
    ensures Joint(mem, kpd, tpd, free - {f}) && Plain(mem, kpd, tpd, free - {f}, f)
    ensures Progress(mem, free, mem, free - {f}, kpd, tpd)
    ensures Slack(mem, kpd, tpd, free - {f}, dirs) == Slack(mem, kpd, tpd, free, dirs) - 1
  {
    HeldOutside(mem, kpd, free, f);
    HeldOutside(mem, tpd, free, f);
  }

  // With enough frames for the missing tables, there is one for each of them.
  lemma SlackLeaves(mem: seq<Frame>, kpd: nat, tpd: nat, free: set<nat>, dirs: set<nat>)
    requires kpd < |mem| && tpd < |mem|
    ensures Slack(mem, kpd, tpd, free, {}) >= 0 ==>
              forall d :: d in ScratchDirs() && !HasTable(mem, kpd, d) ==> free != {}
    ensures Slack(mem, kpd, tpd, free, dirs) >= 0 ==>
              forall d :: d in dirs && d < 1024 && !HasTable(mem, tpd, d) ==> free != {}
    ensures Slack(mem, kpd, tpd, free, {}) >= Slack(mem, kpd, tpd, free, dirs)
    ensures forall d :: d in dirs && d < 1024 && !HasTable(mem, tpd, d) ==>
              Slack(mem, kpd, tpd, free, {}) > Slack(mem, kpd, tpd, free, dirs)
  {
    assert Lacking(mem, tpd, {}) == {};
    if d :| d in ScratchDirs() && !HasTable(mem, kpd, d) {
      assert d in Lacking(mem, kpd, ScratchDirs());
    }
    if d :| d in dirs && d < 1024 && !HasTable(mem, tpd, d) {
      assert d in Lacking(mem, tpd, dirs);
    }
  }

  lemma SlackBound(mem: seq<Frame>, kpd: nat, tpd: nat, free: set<nat>, dirs: set<nat>)
    requires kpd < |mem| && tpd < |mem|
    ensures Slack(mem, kpd, tpd, free, dirs) <= |free|
  {
  }

  // vmm_map_page on a scratch page, as one step of the load.
  lemma ScratchMapped(mem: seq<Frame>, kpd: nat, tpd: nat, vp: nat, v: u32, free: set<nat>, dirs: set<nat>)
    requires Joint(mem, kpd, tpd, free) && Scratch(vp) && vp < PAGES && (HasTable(mem, kpd, DirIndex(vp)) || free != {})
    requires forall f :: f in free ==> f < |mem| && f < PAGES
    ensures var r := MapNow(mem, kpd, vp, v, free, TableFlags(3));
            var fr := if HasTable(mem, kpd, DirIndex(vp)) then free else free - {Lowest(free)};
            && Joint(r, kpd, tpd, fr) && Progress(mem, free, r, fr, kpd, tpd) && UserSame(mem, r, tpd)
            && |r| == |mem| && r[tpd] == mem[tpd]
            && Pte(r, kpd, vp) == v && HasTable(r, kpd, DirIndex(vp))
            && Slack(r, kpd, tpd, fr, dirs) == Slack(mem, kpd, tpd, free, dirs)
  {
    hide SpaceOk, Held, HasTable, Outside, Pte, Kept, Lowest, Slack, KernelSame, UserSame, Mapped, TableFlags;
    JointSpaces(mem, kpd, tpd, free);
    var spare := if HasTable(mem, kpd, DirIndex(vp)) then 0 else Lowest(free);
    KernelMap(mem, kpd, tpd, vp, v, spare, TableFlags(3), free, dirs);
  }

  class Loader {
    const kas: AddressSpace
    const tpd: nat

    constructor (kas_: AddressSpace, tpd_: nat)
      ensures kas == kas_ && tpd == tpd_
    {
      kas, tpd := kas_, tpd_;
    }

    ghost predicate Valid()
      reads kas, kas.pmm, kas.pmm.bitmap
    {
      kas.Valid() && Joint(kas.mem, kas.pd, tpd, kas.pmm.Free())
    }

    /** vmm_map_page on a scratch page; ok tells whether it is mapped afterwards. */
    method MapScratch(vp: nat, frame: nat, ghost dirs: set<nat>) returns (ok: bool)
      requires Valid() && Scratch(vp) && frame < PAGES
      modifies kas, kas.pmm, kas.pmm.bitmap
      ensures Valid() && Progress(old(kas.mem), old(kas.pmm.Free()), kas.mem, kas.pmm.Free(), kas.pd, tpd)
      ensures UserSame(old(kas.mem), kas.mem, tpd) && |kas.mem| == |old(kas.mem)| && kas.mem[tpd] == old(kas.mem[tpd])
      ensures ok ==>
                vp < PAGES && Pte(kas.mem, kas.pd, vp) == MakeEntry(frame, 3) && HasTable(kas.mem, kas.pd, DirIndex(vp))
      ensures Slack(kas.mem, kas.pd, tpd, kas.pmm.Free(), dirs)
              == old(Slack(kas.mem, kas.pd, tpd, kas.pmm.Free(), dirs))
      ensures old(Slack(kas.mem, kas.pd, tpd, kas.pmm.Free(), {})) >= 0 ==> ok
    {
      hide Joint, SpaceOk, Held, HasTable, Outside, Pte, Kept, FreePages, OthersKept, Lowest, Slack, UserSame;
      hide Progress, MapNow, MakeEntry, TableFlags;
      ScratchDir(vp);
      ghost var m, free := kas.mem, kas.pmm.Free();
      JointSpaces(m, kas.pd, tpd, free);
      JointProgress(m, kas.pd, tpd, free);
      SameUser(m, tpd);
      SlackLeaves(m, kas.pd, tpd, free, dirs);
      FreeBelow(kas.pmm.bitmap[..], kas.pmm.max);
      if HasTable(m, kas.pd, DirIndex(vp)) || free != {} {
        ScratchMapped(m, kas.pd, tpd, vp, MakeEntry(frame, 3), free, dirs);
      }
      assert vp * FRAME / FRAME == vp && frame * FRAME / FRAME == frame;
      kas.MapPage(vp * FRAME, frame * FRAME, 3);
      ok := HasTable(kas.mem, kas.pd, DirIndex(vp));
    }

    // Clears the entry of a scratch page without freeing the frame behind it.
    method ClearScratch(vp: nat, ghost dirs: set<nat>)
      requires Valid() && Scratch(vp) && vp < PAGES && HasTable(kas.mem, kas.pd, DirIndex(vp))
      modifies kas
      ensures Valid() && Progress(old(kas.mem), kas.pmm.Free(), kas.mem, kas.pmm.Free(), kas.pd, tpd)
      ensures UserSame(old(kas.mem), kas.mem, tpd)
      ensures Slack(kas.mem, kas.pd, tpd, kas.pmm.Free(), dirs)
              == old(Slack(kas.mem, kas.pd, tpd, kas.pmm.Free(), dirs))
    {
      hide SpaceOk, Held, Outside, Pte, Kept, FreePages, Slack, KernelSame, UserSame;
      JointSpaces(kas.mem, kas.pd, tpd, kas.pmm.Free());
      KernelClear(kas.mem, kas.pd, tpd, vp, kas.pmm.Free(), dirs);
      var table := TableFrame(kas.mem, kas.pd, DirIndex(vp));
      SpaceBounds(kas.mem, kas.pd, DirIndex(vp));
      kas.mem := WithEntry(kas.mem, table, TableIndex(vp), 0);
    }

    // The frame behind a mapped scratch page.
    method Window(vp: nat) returns (f: nat)
      requires Valid() && vp < PAGES && IsPresent(Pte(kas.mem, kas.pd, vp))
      ensures f == FrameOf(Pte(kas.mem, kas.pd, vp))
    {
      hide Joint, SpaceOk, Held, Outside, Pte, FreePages, FrameOf;
      var pa := kas.VirtToPhys(vp * FRAME);
      assert vp * FRAME / FRAME == vp && vp * FRAME % FRAME == 0;
      f := pa / FRAME;
    }

    /** The table for the page exists and is mapped at 0xF0000000.  A new table takes a
        frame, is cleared through the window and entered into the task's directory. */
    method TaskTableFor(vp: nat, ghost dirs: set<nat>) returns (out: Outcome)
      requires Valid() && UserPage(vp) && DirIndex(vp) in dirs
      modifies kas, kas.pmm, kas.pmm.bitmap
      ensures Valid() && Progress(old(kas.mem), old(kas.pmm.Free()), kas.mem, kas.pmm.Free(), kas.pd, tpd)
      ensures UserSame(old(kas.mem), kas.mem, tpd)
      ensures out in {Loaded, NoMemory, Fault}
      ensures out == NoMemory ==> kas.mem == old(kas.mem) && kas.pmm.Free() == old(kas.pmm.Free())
      ensures out == Loaded ==> WindowOn(vp)
      ensures out == Loaded ==>
                Slack(kas.mem, kas.pd, tpd, kas.pmm.Free(), dirs)
                == old(Slack(kas.mem, kas.pd, tpd, kas.pmm.Free(), dirs))
      ensures old(Slack(kas.mem, kas.pd, tpd, kas.pmm.Free(), dirs)) >= 0 ==> out == Loaded
    {
      hide Joint, SpaceOk, Held, Outside, Pte, Kept, FreePages, Slack, KernelSame, UserSame, HasTable, TableFrame;
      ghost var m, free := kas.mem, kas.pmm.Free();
      JointSpaces(m, kas.pd, tpd, free);
      JointProgress(m, kas.pd, tpd, free);
      SameUser(m, tpd);
      SlackLeaves(m, kas.pd, tpd, free, dirs);
      if HasTable(kas.mem, tpd, DirIndex(vp)) {
        SpaceBounds(kas.mem, tpd, DirIndex(vp));
        var ok := MapScratch(TABLE_WINDOW, TableFrame(kas.mem, tpd, DirIndex(vp)), dirs);
        SameTables(m, kas.mem, tpd);
        return if ok then Loaded else Fault;
      }
      FreeBelow(kas.pmm.bitmap[..], kas.pmm.max);
      var pt := kas.pmm.AllocBlock();
      if pt == 0 {
        return NoMemory;
      }
      out := NewTaskTable(vp, pt / FRAME, m, free, dirs);
    }

    // The new-table branch, after the frame f has been taken.
    method NewTaskTable(vp: nat, f: nat, ghost m: seq<Frame>, ghost free: set<nat>, ghost dirs: set<nat>)
      returns (out: Outcome)
      requires kas.pmm.Valid() && 0 !in kas.pmm.Free() && kas.mem == m && |m| == kas.pmm.max
      requires Joint(m, kas.pd, tpd, free) && UserPage(vp) && DirIndex(vp) in dirs && !HasTable(m, tpd, DirIndex(vp))
      requires f in free && f < |m| && kas.pmm.Free() == free - {f}
      modifies kas, kas.pmm, kas.pmm.bitmap
      ensures Valid() && Progress(m, free, kas.mem, kas.pmm.Free(), kas.pd, tpd)
      ensures UserSame(m, kas.mem, tpd)
      ensures out in {Loaded, Fault}
      ensures out == Loaded ==> WindowOn(vp)
      ensures out == Loaded ==>
                Slack(kas.mem, kas.pd, tpd, kas.pmm.Free(), dirs) == Slack(m, kas.pd, tpd, free, dirs)
      ensures Slack(m, kas.pd, tpd, free, dirs) >= 0 ==> out == Loaded
    {
      hide Joint, SpaceOk, Held, Outside, Pte, Kept, FreePages, Slack, KernelSame, UserSame, HasTable, TableFrame;
      hide Progress;
      Taken(m, kas.pd, tpd, free, f, dirs);
      JointSpaces(m, kas.pd, tpd, free - {f});
      SlackLeaves(m, kas.pd, tpd, free - {f}, dirs);
      var ok := MapScratch(TABLE_WINDOW, f, dirs);
      ghost var m1, f1 := kas.mem, kas.pmm.Free();
      ProgressTrans(m, free, m, free - {f}, m1, f1, kas.pd, tpd);
      if !ok {
        return Fault;
      }
      PlainStays(m, free - {f}, m1, f1, kas.pd, tpd, f);
      var shown := Window(TABLE_WINDOW);
      kas.mem := kas.mem[shown := ZeroFrame()];
      PlainWrite(m1, kas.pd, tpd, f, ZeroFrame(), f1, dirs);
      ProgressWrite(m, free, m1, f1, kas.mem, kas.pd, tpd, f);
      JointSpaces(kas.mem, kas.pd, tpd, f1);
      SameTables(m, m1, tpd);
      SameTables(m1, kas.mem, tpd);
      SameTables(m1, kas.mem, kas.pd);
      EnterTable(vp, f, m, free, m1, dirs);
      return Loaded;
    }

    // The cleared frame f goes into the task's directory.
    method EnterTable(vp: nat, f: nat, ghost m: seq<Frame>, ghost free: set<nat>, ghost m1: seq<Frame>,
                      ghost dirs: set<nat>)
      requires Valid() && UserPage(vp) && DirIndex(vp) in dirs && f in free && f < PAGES
      requires Progress(m, free, kas.mem, kas.pmm.Free(), kas.pd, tpd) && Plain(kas.mem, kas.pd, tpd, kas.pmm.Free(), f)
      requires Joint(m, kas.pd, tpd, free) && Joint(m1, kas.pd, tpd, kas.pmm.Free())
      requires UserSame(m, m1, tpd) && UserSame(m1, kas.mem, tpd)
      requires kas.mem[f] == ZeroFrame() && !HasTable(kas.mem, tpd, DirIndex(vp))
      requires HasTable(kas.mem, kas.pd, DirIndex(TABLE_WINDOW))
               && Pte(kas.mem, kas.pd, TABLE_WINDOW) == MakeEntry(f, 3)
      modifies kas
      ensures Valid() && Progress(m, free, kas.mem, kas.pmm.Free(), kas.pd, tpd)
      ensures UserSame(m, kas.mem, tpd) && WindowOn(vp)
      ensures Slack(kas.mem, kas.pd, tpd, kas.pmm.Free(), dirs)
              == old(Slack(kas.mem, kas.pd, tpd, kas.pmm.Free(), dirs)) + 1
    {
      hide Joint, SpaceOk, Held, Outside, Pte, Kept, FreePages, Slack, KernelSame, UserSame, HasTable, TableFrame;
      hide Progress, Plain;
      ghost var m2, f2 := kas.mem, kas.pmm.Free();
      JointSpaces(m, kas.pd, tpd, free);
      JointSpaces(m1, kas.pd, tpd, f2);
      JointSpaces(m2, kas.pd, tpd, f2);
      TaskTable(m2, kas.pd, tpd, DirIndex(vp), f, f2, dirs);
      kas.mem := WithEntry(kas.mem, tpd, DirIndex(vp), MakeEntry(f, 7));
      SameTables(m2, kas.mem, kas.pd);
      ProgressWrite(m, free, m2, f2, kas.mem, kas.pd, tpd, f);
      JointSpaces(kas.mem, kas.pd, tpd, f2);
      UserTrans(m, m1, m2, tpd);
      UserTrans(m, m2, kas.mem, tpd);
    }

    // Writes the page's entry through 0xF0000000 and clears the window.
    method StoreEntry(vp: nat, v: u32, ghost dirs: set<nat>)
      requires Valid() && UserPage(vp) && WindowOn(vp)
      modifies kas
      ensures Valid() && Progress(old(kas.mem), kas.pmm.Free(), kas.mem, kas.pmm.Free(), kas.pd, tpd)
      ensures UserSet(old(kas.mem), kas.mem, tpd, vp, v)
      ensures Slack(kas.mem, kas.pd, tpd, kas.pmm.Free(), dirs)
              == old(Slack(kas.mem, kas.pd, tpd, kas.pmm.Free(), dirs))
    {
      hide Joint, SpaceOk, Held, Outside, Pte, Kept, FreePages, Slack, UserSame, Progress, HasTable, TableFrame;
      ghost var m, free := kas.mem, kas.pmm.Free();
      JointSpaces(m, kas.pd, tpd, free);
      TaskEntry(m, kas.pd, tpd, vp, v, free, dirs);
      var table := Window(TABLE_WINDOW);
      SpaceBounds(m, tpd, DirIndex(vp));
      kas.mem := WithEntry(kas.mem, table, TableIndex(vp), v);
      JointSpaces(kas.mem, kas.pd, tpd, free);
      ProgressFrom(m, kas.mem, free, kas.pd, tpd);
      ghost var m1 := kas.mem;
      KernelDirKept(m, kas.pd, tpd, vp, v, free);
      ClearScratch(TABLE_WINDOW, dirs);
      ProgressTrans(m, free, m1, free, kas.mem, free, kas.pd, tpd);
      JointSpaces(kas.mem, kas.pd, tpd, free);
      SetThenSame(m, m1, kas.mem, tpd, vp, v);
    }

    /** map_user_page_accessible: the page of the task gets a frame of its own, which the
        kernel sees in the data window; out of memory, nothing has changed. */
    method MapUser(vp: nat, flags: nat, ghost dirs: set<nat>) returns (out: Outcome, frame: nat)
      requires Valid() && UserPage(vp) && DirIndex(vp) in dirs && flags < 4096
      modifies kas, kas.pmm, kas.pmm.bitmap
      ensures Valid() && Progress(old(kas.mem), old(kas.pmm.Free()), kas.mem, kas.pmm.Free(), kas.pd, tpd)
      ensures out in {Loaded, NoMemory, Fault}
      ensures out == NoMemory ==> kas.mem == old(kas.mem) && kas.pmm.Free() == old(kas.pmm.Free())
      ensures out == Loaded ==> InWindow(frame) && frame in old(kas.pmm.Free())
      ensures out == Loaded ==> UserSet(old(kas.mem), kas.mem, tpd, vp, MakeEntry(frame, flags))
      ensures out == Loaded ==>
                Slack(kas.mem, kas.pd, tpd, kas.pmm.Free(), dirs)
                == old(Slack(kas.mem, kas.pd, tpd, kas.pmm.Free(), dirs)) - 1
      ensures old(Slack(kas.mem, kas.pd, tpd, kas.pmm.Free(), dirs)) >= 1 ==> out == Loaded
    {
      hide Joint, SpaceOk, Held, Outside, Pte, Kept, FreePages, Slack, UserSame, Progress, HasTable, TableFrame;
      hide UserSet;
      ghost var m, free := kas.mem, kas.pmm.Free();
      JointSpaces(m, kas.pd, tpd, free);
      JointProgress(m, kas.pd, tpd, free);
      SlackBound(m, kas.pd, tpd, free, dirs);
      FreeBelow(kas.pmm.bitmap[..], kas.pmm.max);
      var phys := kas.pmm.AllocBlock();
      frame := phys / FRAME;
      if phys == 0 {
        return NoMemory, 0;
      }
      Taken(m, kas.pd, tpd, free, frame, dirs);
      JointSpaces(m, kas.pd, tpd, free - {frame});
      out := TaskTableFor(vp, dirs);
      ghost var m1, f1 := kas.mem, kas.pmm.Free();
      ProgressTrans(m, free, m, free - {frame}, m1, f1, kas.pd, tpd);
      if out == NoMemory {
        kas.pmm.FreeBlock(phys);
        assert kas.pmm.Free() == free;
        return NoMemory, 0;
      }
      if out == Fault {
        return Fault, 0;
      }
      PlainStays(m, free - {frame}, m1, f1, kas.pd, tpd, frame);
      var ok := EnterPage(vp, frame, flags, dirs);
      ProgressTrans(m, free, m1, f1, kas.mem, kas.pmm.Free(), kas.pd, tpd);
      JointSpaces(m1, kas.pd, tpd, f1);
      JointSpaces(kas.mem, kas.pd, tpd, kas.pmm.Free());
      SameThenSet(m, m1, kas.mem, tpd, vp, MakeEntry(frame, flags));
      return if ok then Loaded else Fault, frame;
    }

    // The entry is written, and the frame is mapped in the data window.
    method EnterPage(vp: nat, frame: nat, flags: nat, ghost dirs: set<nat>) returns (ok: bool)
      requires Valid() && UserPage(vp) && WindowOn(vp) && flags < 4096
      requires Plain(kas.mem, kas.pd, tpd, kas.pmm.Free(), frame) && frame < PAGES
      modifies kas, kas.pmm, kas.pmm.bitmap
      ensures Valid() && Progress(old(kas.mem), old(kas.pmm.Free()), kas.mem, kas.pmm.Free(), kas.pd, tpd)
      ensures UserSet(old(kas.mem), kas.mem, tpd, vp, MakeEntry(frame, flags))
      ensures ok ==> InWindow(frame)
      ensures Slack(kas.mem, kas.pd, tpd, kas.pmm.Free(), dirs)
              == old(Slack(kas.mem, kas.pd, tpd, kas.pmm.Free(), dirs))
      ensures old(Slack(kas.mem, kas.pd, tpd, kas.pmm.Free(), dirs)) >= 0 ==> ok
    {
      hide Joint, SpaceOk, Held, Outside, Pte, Kept, FreePages, Slack, UserSame, Progress, HasTable, TableFrame;
      hide UserSet, Plain;
      ghost var m, free := kas.mem, kas.pmm.Free();
      StoreEntry(vp, MakeEntry(frame, flags), dirs);
      ghost var m1 := kas.mem;
      PlainStays(m, free, m1, free, kas.pd, tpd, frame);
      JointSpaces(m, kas.pd, tpd, free);
      JointSpaces(m1, kas.pd, tpd, free);
      SlackLeaves(m1, kas.pd, tpd, free, dirs);
      ok := MapScratch(DataWindow(frame), frame, dirs);
      JointSpaces(kas.mem, kas.pd, tpd, kas.pmm.Free());
      PlainStays(m1, free, kas.mem, kas.pmm.Free(), kas.pd, tpd, frame);
      ProgressTrans(m, free, m1, free, kas.mem, kas.pmm.Free(), kas.pd, tpd);
      SetThenSame(m, m1, kas.mem, tpd, vp, MakeEntry(frame, flags));
    }

    // The frame is in use for data and mapped in the data window.
    ghost predicate InWindow(frame: nat)
      requires Valid()
      reads kas, kas.pmm, kas.pmm.bitmap
    {
      && Plain(kas.mem, kas.pd, tpd, kas.pmm.Free(), frame) && frame < PAGES
      && HasTable(kas.mem, kas.pd, DirIndex(DataWindow(frame)))
      && Pte(kas.mem, kas.pd, DataWindow(frame)) == MakeEntry(frame, 3)
    }

    // One iteration of the page loop of elf_load.
    method LoadPage(file: seq<byte>, s: Segment, k: nat, ghost dirs: set<nat>) returns (out: Outcome)
      requires Valid() && Placed(s, file) && k < PageCount(s) && UserPage(StartPage(s) + k)
               && DirIndex(StartPage(s) + k) in dirs
      modifies kas, kas.pmm, kas.pmm.bitmap
      ensures Valid() && Progress(old(kas.mem), old(kas.pmm.Free()), kas.mem, kas.pmm.Free(), kas.pd, tpd)
      ensures out in {Loaded, NoMemory, Fault}
      ensures out == Loaded ==> PageOf(kas.mem, kas.pd, tpd, kas.pmm.Free(), file, s, k)
      ensures out == Loaded ==> OthersSame(old(kas.mem), kas.mem, tpd, StartPage(s) + k, 1)
      ensures out == Loaded ==>
                Slack(kas.mem, kas.pd, tpd, kas.pmm.Free(), dirs)
                == old(Slack(kas.mem, kas.pd, tpd, kas.pmm.Free(), dirs)) - 1
      ensures old(Slack(kas.mem, kas.pd, tpd, kas.pmm.Free(), dirs)) >= 1 ==> out == Loaded
    {
      hide Joint, SpaceOk, Held, Outside, Pte, Kept, FreePages, Slack, UserSame, Progress, HasTable, TableFrame;
      hide UserSet, Plain;
      hide OthersSame, PageOf, PageImage, MakeEntry;
      ghost var m, free, vp := kas.mem, kas.pmm.Free(), StartPage(s) + k;
      var frame: nat;
      out, frame := MapUser(StartPage(s) + k, SegmentFlags(s), dirs);
      if out != Loaded {
        return;
      }
      ghost var m1, f1 := kas.mem, kas.pmm.Free();
      JointSpaces(m1, kas.pd, tpd, f1);
      PlainWhere(m1, kas.pd, tpd, f1, frame);
      var page := FilledPage(file, s, k);
      var shown := Window(DataWindow(frame));
      kas.mem := kas.mem[shown := page];
      ghost var m2 := kas.mem;
      PlainWrite(m1, kas.pd, tpd, frame, page, f1, dirs);
      ProgressWrite(m, free, m1, f1, m2, kas.pd, tpd, frame);
      JointSpaces(m2, kas.pd, tpd, f1);
      SameTables(m1, m2, kas.pd);
      ClearScratch(DataWindow(frame), dirs);
      ProgressTrans(m, free, m2, f1, kas.mem, f1, kas.pd, tpd);
      PlainStays(m2, f1, kas.mem, f1, kas.pd, tpd, frame);
      JointSpaces(m, kas.pd, tpd, free);
      JointSpaces(kas.mem, kas.pd, tpd, f1);
      SetThenSame(m, m1, m2, tpd, vp, MakeEntry(frame, SegmentFlags(s)));
      SetThenSame(m, m2, kas.mem, tpd, vp, MakeEntry(frame, SegmentFlags(s)));
      PageLoaded(m, kas.mem, kas.pd, tpd, f1, file, s, k, frame);
    }

    /** The page loop of elf_load for one segment. */
    method LoadSegment(file: seq<byte>, s: Segment, ghost dirs: set<nat>) returns (out: Outcome)
      requires Valid() && Placed(s, file) && DirsOf(s) <= dirs
      modifies kas, kas.pmm, kas.pmm.bitmap
      ensures Valid() && Progress(old(kas.mem), old(kas.pmm.Free()), kas.mem, kas.pmm.Free(), kas.pd, tpd)
      ensures out in {Loaded, NoMemory, Fault}
      ensures out == Loaded ==> SegmentIn(kas.mem, kas.pd, tpd, kas.pmm.Free(), file, s, PageCount(s))
      ensures out == Loaded ==> OthersSame(old(kas.mem), kas.mem, tpd, StartPage(s), PageCount(s))
      ensures out == Loaded ==>
                Slack(kas.mem, kas.pd, tpd, kas.pmm.Free(), dirs)
                == old(Slack(kas.mem, kas.pd, tpd, kas.pmm.Free(), dirs)) - PageCount(s)
      ensures old(Slack(kas.mem, kas.pd, tpd, kas.pmm.Free(), dirs)) >= PageCount(s) ==> out == Loaded
    {
      hide Joint, SpaceOk, FreePages, Slack, Progress, OthersSame, PageOf, Placed, Pte;
      ghost var m, free := kas.mem, kas.pmm.Free();
      JointProgress(m, kas.pd, tpd, free);
      JointSpaces(m, kas.pd, tpd, free);
      OthersStart(m, tpd, StartPage(s));
      var k: nat := 0;
      while k < PageCount(s)
        invariant k <= PageCount(s) && Valid() && Progress(m, free, kas.mem, kas.pmm.Free(), kas.pd, tpd)
        invariant SpaceOk(kas.mem, tpd) && kas.pd < |kas.mem| && tpd < |kas.mem|
        invariant SegmentIn(kas.mem, kas.pd, tpd, kas.pmm.Free(), file, s, k)
        invariant OthersSame(m, kas.mem, tpd, StartPage(s), k)
        invariant Slack(kas.mem, kas.pd, tpd, kas.pmm.Free(), dirs) == Slack(m, kas.pd, tpd, free, dirs) - k
      {
        ghost var m1, f1 := kas.mem, kas.pmm.Free();
        PlacedPages(s, file, k);
        out := LoadPage(file, s, k, dirs);
        JointSpaces(kas.mem, kas.pd, tpd, kas.pmm.Free());
        ProgressTrans(m, free, m1, f1, kas.mem, kas.pmm.Free(), kas.pd, tpd);
        if out != Loaded {
          return;
        }
        SegmentGrows(m, m1, f1, kas.mem, kas.pmm.Free(), kas.pd, tpd, file, s, k);
        k := k + 1;
      }
      return Loaded;
    }

    /** elf_load: every PT_LOAD segment is in the task's address space with its image and
        flags, but for pages that a later segment took over; no other page of the task
        changes, and neither do the kernel's mappings and the frames in use; with a frame
        for every page and missing table it succeeds. */
    method Load(h: Header, segments: seq<Segment>, file: seq<byte>, ghost dirs: set<nat>) returns (out: Outcome)
      requires Valid() && |h.ident| == 16
      requires forall i :: 0 <= i < |segments| && segments[i].ptype == PT_LOAD ==>
                 Placed(segments[i], file) && DirsOf(segments[i]) <= dirs
      modifies kas, kas.pmm, kas.pmm.bitmap
      ensures Valid() && Progress(old(kas.mem), old(kas.pmm.Free()), kas.mem, kas.pmm.Free(), kas.pd, tpd)
      ensures out == Refused <==> !Accepts(h)
      ensures out == Refused ==> kas.mem == old(kas.mem) && kas.pmm.Free() == old(kas.pmm.Free())
      ensures out == Loaded ==> AllIn(kas.mem, kas.pd, tpd, kas.pmm.Free(), file, segments, |segments|)
      ensures out == Loaded ==> RestSame(old(kas.mem), kas.mem, tpd, segments, |segments|)
      ensures Accepts(h)
              && old(Slack(kas.mem, kas.pd, tpd, kas.pmm.Free(), dirs)) >= TotalPages(segments, |segments|) ==>
                out == Loaded
    {
      hide Joint, SpaceOk, FreePages, Slack, Progress, OthersSame, Placed, Pte, SegmentIn, RestSame, AllIn, PageCount;
      ghost var m, free := kas.mem, kas.pmm.Free();
      JointProgress(m, kas.pd, tpd, free);
      if !Accepts(h) {
        return Refused;
      }
      JointSpaces(m, kas.pd, tpd, free);
      NoneIn(m, kas.pd, tpd, free, file, segments);
      var i: nat := 0;
      while i < |segments|
        invariant i <= |segments| && Valid() && Progress(m, free, kas.mem, kas.pmm.Free(), kas.pd, tpd)
        invariant SpaceOk(kas.mem, tpd) && kas.pd < |kas.mem| && tpd < |kas.mem|
        invariant AllIn(kas.mem, kas.pd, tpd, kas.pmm.Free(), file, segments, i)
        invariant RestSame(m, kas.mem, tpd, segments, i)
        invariant Slack(kas.mem, kas.pd, tpd, kas.pmm.Free(), dirs)
                  == Slack(m, kas.pd, tpd, free, dirs) - TotalPages(segments, i)
      {
        ghost var m1, f1 := kas.mem, kas.pmm.Free();
        TotalGrows(segments, i, |segments|);
        if segments[i].ptype == PT_LOAD {
          out := LoadSegment(file, segments[i], dirs);
          JointSpaces(kas.mem, kas.pd, tpd, kas.pmm.Free());
          ProgressTrans(m, free, m1, f1, kas.mem, kas.pmm.Free(), kas.pd, tpd);
          if out != Loaded {
            return;
          }
          AllGrows(m, m1, f1, kas.mem, kas.pmm.Free(), kas.pd, tpd, file, segments, i);
        } else {
          AllSkips(m, m1, f1, kas.pd, tpd, file, segments, i);
        }
        i := i + 1;
      }
      return Loaded;
    }

    /** elf_load from the file's own bytes: the headers say what is accepted, which segments
        there are and where the program starts. */
    method LoadFile(file: seq<byte>, ghost dirs: set<nat>) returns (out: Outcome, entry: u32)
      requires Valid() && HeadersIn(file)
      requires forall i :: 0 <= i < |SegmentsOf(file)| && SegmentsOf(file)[i].ptype == PT_LOAD ==>
                 Placed(SegmentsOf(file)[i], file) && DirsOf(SegmentsOf(file)[i]) <= dirs
      modifies kas, kas.pmm, kas.pmm.bitmap
      ensures Valid() && Progress(old(kas.mem), old(kas.pmm.Free()), kas.mem, kas.pmm.Free(), kas.pd, tpd)
      ensures out == Refused <==> !Executable(file)
      ensures out == Refused ==> kas.mem == old(kas.mem) && kas.pmm.Free() == old(kas.pmm.Free())
      ensures out == Loaded ==>
                && AllIn(kas.mem, kas.pd, tpd, kas.pmm.Free(), file, SegmentsOf(file), Half(file, 44))
                && RestSame(old(kas.mem), kas.mem, tpd, SegmentsOf(file), Half(file, 44))
                && entry == file[24] as int + 0x100 * file[25] as int + 0x1_0000 * file[26] as int
                            + 0x100_0000 * file[27] as int
      ensures Executable(file)
              && old(Slack(kas.mem, kas.pd, tpd, kas.pmm.Free(), dirs)) >= TotalPages(SegmentsOf(file), Half(file, 44))
              ==> out == Loaded
    {
      var h := HeaderOf(file);
      AcceptsBytes(file);
      entry := h.entry;
      hide Joint, SpaceOk, FreePages, Slack, Progress, Placed, Pte, RestSame, AllIn, Accepts, Executable, SegmentsOf;
      out := Load(h, SegmentsOf(file), file, dirs);
    }

    // 0xF0000000 shows the table that holds the page's entry.
    ghost predicate WindowOn(vp: nat)
      requires Valid() && UserPage(vp)
      reads kas, kas.pmm, kas.pmm.bitmap
    {
      && HasTable(kas.mem, tpd, DirIndex(vp)) && TableFrame(kas.mem, tpd, DirIndex(vp)) < PAGES
      && HasTable(kas.mem, kas.pd, DirIndex(TABLE_WINDOW))
      && Pte(kas.mem, kas.pd, TABLE_WINDOW) == MakeEntry(TableFrame(kas.mem, tpd, DirIndex(vp)), 3)
    }
  }

  lemma UserTrans(a: seq<Frame>, b: seq<Frame>, c: seq<Frame>, tpd: nat)
    requires SpaceOk(a, tpd) && SpaceOk(b, tpd) && SpaceOk(c, tpd) && UserSame(a, b, tpd) && UserSame(b, c, tpd)
    ensures UserSame(a, c, tpd)
  {
    hide Pte, SpaceOk;
  }

  // The page gets the entry, the task's other pages keep theirs.
  ghost predicate UserSet(a: seq<Frame>, b: seq<Frame>, tpd: nat, vp: nat, v: u32)
    requires SpaceOk(a, tpd) && SpaceOk(b, tpd)
  {
    forall q: nat :: UserPage(q) ==> Pte(b, tpd, q) == if q == vp then v else Pte(a, tpd, q)
  }

  lemma SetThenSame(a: seq<Frame>, b: seq<Frame>, c: seq<Frame>, tpd: nat, vp: nat, v: u32)
    requires SpaceOk(a, tpd) && SpaceOk(b, tpd) && SpaceOk(c, tpd) && UserSet(a, b, tpd, vp, v) && UserSame(b, c, tpd)
    ensures UserSet(a, c, tpd, vp, v)
  {
    hide Pte, SpaceOk;
  }

  lemma SameThenSet(a: seq<Frame>, b: seq<Frame>, c: seq<Frame>, tpd: nat, vp: nat, v: u32)
    requires SpaceOk(a, tpd) && SpaceOk(b, tpd) && SpaceOk(c, tpd) && UserSame(a, b, tpd) && UserSet(b, c, tpd, vp, v)
    ensures UserSet(a, c, tpd, vp, v)
  {
    hide Pte, SpaceOk;
  }

  // The task's pages outside start .. start + n - 1 have the same entries.
  ghost predicate OthersSame(a: seq<Frame>, b: seq<Frame>, tpd: nat, start: nat, n: nat)
    requires SpaceOk(a, tpd) && SpaceOk(b, tpd)
  {
    forall q: nat :: UserPage(q) && !(start <= q < start + n) ==> Pte(b, tpd, q) == Pte(a, tpd, q)
  }

  lemma OthersStart(mem: seq<Frame>, tpd: nat, start: nat)
    requires SpaceOk(mem, tpd)
    ensures OthersSame(mem, mem, tpd, start, 0)
  {
  }

  lemma PlainWhere(mem: seq<Frame>, kpd: nat, tpd: nat, free: set<nat>, f: nat)
    requires kpd < |mem| && tpd < |mem| && Plain(mem, kpd, tpd, free, f)
    ensures f < |mem| && f != kpd && f != tpd
  {
  }

  lemma PageLoaded(a: seq<Frame>, b: seq<Frame>, kpd: nat, tpd: nat, free: set<nat>, file: seq<byte>, s: Segment,
                   k: nat, frame: nat)
    requires SpaceOk(a, tpd) && SpaceOk(b, tpd) && SpaceOk(b, kpd) && UserPage(StartPage(s) + k) && frame < PAGES
    requires UserSet(a, b, tpd, StartPage(s) + k, MakeEntry(frame, SegmentFlags(s)))
    requires Plain(b, kpd, tpd, free, frame) && b[frame] == PageImage(file, s, k)
    ensures PageOf(b, kpd, tpd, free, file, s, k) && OthersSame(a, b, tpd, StartPage(s) + k, 1)
  {
    hide Pte, SpaceOk, Outside, MakeEntry;
  }

  // One more page: the earlier ones stay.
  lemma SegmentGrows(m: seq<Frame>, a: seq<Frame>, fa: set<nat>, b: seq<Frame>, fb: set<nat>, kpd: nat, tpd: nat,
                     file: seq<byte>, s: Segment, k: nat)
    requires Progress(a, fa, b, fb, kpd, tpd) && SpaceOk(m, tpd) && Placed(s, file) && k < PageCount(s)
    requires SegmentIn(a, kpd, tpd, fa, file, s, k) && PageOf(b, kpd, tpd, fb, file, s, k)
    requires OthersSame(a, b, tpd, StartPage(s) + k, 1) && OthersSame(m, a, tpd, StartPage(s), k)
    ensures SegmentIn(b, kpd, tpd, fb, file, s, k + 1) && OthersSame(m, b, tpd, StartPage(s), k + 1)
  {
    hide Joint, SpaceOk, Kept, Pte, PageOf, Placed, UserPage;
    JointSpaces(a, kpd, tpd, fa);
    JointSpaces(b, kpd, tpd, fb);
    SegmentStays(a, fa, b, fb, kpd, tpd, file, s, k);
  }

  // ---------------------------------------------------------------- all segments

  // The directory indices of a segment's pages.
  ghost function DirsOf(s: Segment): set<nat> {
    set vp | StartPage(s) <= vp < StartPage(s) + PageCount(s) && vp < PAGES :: DirIndex(vp)
  }

  // No page belongs to two segments.
  ghost predicate Apart(segments: seq<Segment>) {
    forall i, j, vp: nat :: 0 <= i < j < |segments| && segments[i].ptype == PT_LOAD && segments[j].ptype == PT_LOAD ==>
      !(Covers(segments[i], PageCount(segments[i]), vp) && Covers(segments[j], PageCount(segments[j]), vp))
  }

  // A segment from a up to b has the page.
  ghost predicate TakenOver(segments: seq<Segment>, a: nat, b: nat, vp: nat)
    requires b <= |segments|
  {
    exists j :: a <= j < b && segments[j].ptype == PT_LOAD && Covers(segments[j], PageCount(segments[j]), vp)
  }

  // The first n segments are in place, each page as the last of them that has it says.
  ghost predicate AllIn(mem: seq<Frame>, kpd: nat, tpd: nat, free: set<nat>, file: seq<byte>, segments: seq<Segment>,
                        n: nat)
    requires SpaceOk(mem, kpd) && SpaceOk(mem, tpd) && n <= |segments|
    requires forall i :: 0 <= i < |segments| && segments[i].ptype == PT_LOAD ==> Placed(segments[i], file)
  {
    forall i, k: nat :: 0 <= i < n && segments[i].ptype == PT_LOAD && k < PageCount(segments[i])
                        && !TakenOver(segments, i + 1, n, StartPage(segments[i]) + k) ==>
                          PageOf(mem, kpd, tpd, free, file, segments[i], k)
  }

  /** Segments that share no page are all in place entirely. */
  lemma ApartAllIn(mem: seq<Frame>, kpd: nat, tpd: nat, free: set<nat>, file: seq<byte>, segments: seq<Segment>, i: nat)
    requires SpaceOk(mem, kpd) && SpaceOk(mem, tpd)
    requires forall i :: 0 <= i < |segments| && segments[i].ptype == PT_LOAD ==> Placed(segments[i], file)
    requires AllIn(mem, kpd, tpd, free, file, segments, |segments|) && Apart(segments) && i < |segments|
             && segments[i].ptype == PT_LOAD
    ensures SegmentIn(mem, kpd, tpd, free, file, segments[i], PageCount(segments[i]))
  {
    hide SpaceOk, PageOf, Placed, PageCount;
    forall k: nat | k < PageCount(segments[i])
      ensures PageOf(mem, kpd, tpd, free, file, segments[i], k)
    {
      assert Covers(segments[i], PageCount(segments[i]), StartPage(segments[i]) + k);
    }
  }

  /** Who can access a page in place after the load: user-mode code can read it if and only if
      the task had no table for it or one that lets user mode through, and write it if and
      only if PF_W is set and such a table lets it write, too. */
  lemma LoadedAccess(a: seq<Frame>, fa: set<nat>, b: seq<Frame>, fb: set<nat>, kpd: nat, tpd: nat, file: seq<byte>,
                     s: Segment, k: nat)
    requires Progress(a, fa, b, fb, kpd, tpd) && Placed(s, file) && k < s.memsz
    requires SpaceOk(b, kpd) && SpaceOk(b, tpd) && SegmentIn(b, kpd, tpd, fb, file, s, PageCount(s))
    ensures tpd < |a|
    ensures var vp := (s.vaddr + k) / FRAME;
            var d := Entry(a, tpd, DirIndex(vp));
            && (UserReadable(b, tpd, vp) <==> !IsPresent(d) || UserMay(d))
            && (UserWritable(b, tpd, vp) <==> s.pflags / 2 % 2 == 1 && (!IsPresent(d) || (UserMay(d) && MayWrite(d))))
  {
    hide Joint, Kept, KernelSame, SpaceOk, SegmentIn, SegmentFlags, FrameOf, UserByte, Word, Pte;
    JointSpaces(a, kpd, tpd, fa);
    JointSpaces(b, kpd, tpd, fb);
    var vp := (s.vaddr + k) / FRAME;
    LoadedByte(b, kpd, tpd, fb, file, s, k);
    FlagBits(Pte(b, tpd, vp), s);
    LowBits(Entry(b, tpd, DirIndex(vp)));
    InTable(b, tpd, vp);
    hide IsPresent, FlagsOf;
    var d, e := Entry(a, tpd, DirIndex(vp)), Entry(b, tpd, DirIndex(vp));
    assert e == d || (!IsPresent(d) && FlagsOf(e) == 7);
  }

  // An entry that is present lies in a table.
  lemma InTable(mem: seq<Frame>, pd: nat, vp: nat)
    requires SpaceOk(mem, pd) && vp < PAGES && IsPresent(Pte(mem, pd, vp))
    ensures HasTable(mem, pd, DirIndex(vp))
  {
  }

  // Whatever tables the task has in its own part of the address space let user mode through.
  ghost predicate OwnTablesOpen(mem: seq<Frame>, tpd: nat)
    requires tpd < |mem|
  {
    forall d: nat :: d < 1024 && UserDir(d) && HasTable(mem, tpd, d) ==>
      UserMay(Entry(mem, tpd, d)) && MayWrite(Entry(mem, tpd, d))
  }

  /** What elf_load leaves of segments that share no page, in a task whose own tables let user
      mode through, as in a new one: the task can read every byte of each, write it exactly
      with PF_W, and finds the image that the header specifies if and only if the segment is
      aligned or the misplaced bytes are zero. */
  lemma LoadedImage(a: seq<Frame>, fa: set<nat>, b: seq<Frame>, fb: set<nat>, kpd: nat, tpd: nat, file: seq<byte>,
                    segments: seq<Segment>, i: nat)
    requires Progress(a, fa, b, fb, kpd, tpd) && tpd < |a| && OwnTablesOpen(a, tpd)
    requires SpaceOk(b, kpd) && SpaceOk(b, tpd)
    requires forall j :: 0 <= j < |segments| && segments[j].ptype == PT_LOAD ==> Placed(segments[j], file)
    requires AllIn(b, kpd, tpd, fb, file, segments, |segments|) && Apart(segments)
    requires i < |segments| && segments[i].ptype == PT_LOAD && segments[i].filesz <= segments[i].memsz
    ensures var s := segments[i];
            && (forall k: nat :: k < s.memsz ==> Accessible(b, tpd, s, k))
            && ((forall k: nat :: k < s.memsz ==> Reads(b, tpd, s, k, SegmentByte(file, s, k)))
                <==> s.vaddr % FRAME == 0
                     || forall k: nat :: k < s.filesz && k < FRAME - s.vaddr % FRAME ==> SegmentByte(file, s, k) == 0)
  {
    hide Joint, Kept, KernelSame, SpaceOk, SegmentIn, Progress, AllIn, Apart, SegmentByte, Accessible, Reads, UserMay;
    hide MayWrite, OwnTablesOpen;
    var s := segments[i];
    ApartAllIn(b, kpd, tpd, fb, file, segments, i);
    OpenAfter(a, fa, b, fb, kpd, tpd, file, s);
    ImageIsRight(b, kpd, tpd, fb, file, s);
  }

  lemma OpenAfter(a: seq<Frame>, fa: set<nat>, b: seq<Frame>, fb: set<nat>, kpd: nat, tpd: nat, file: seq<byte>,
                  s: Segment)
    requires Progress(a, fa, b, fb, kpd, tpd) && tpd < |a| && OwnTablesOpen(a, tpd) && Placed(s, file)
    requires SpaceOk(b, kpd) && SpaceOk(b, tpd) && SegmentIn(b, kpd, tpd, fb, file, s, PageCount(s))
    ensures TablesOpen(b, tpd, s)
  {
    hide Joint, Kept, KernelSame, SpaceOk, SegmentIn, SegmentFlags, FrameOf, UserByte, Word, Pte, IsPresent, FlagsOf;
    JointSpaces(b, kpd, tpd, fb);
    forall k: nat | k < s.memsz
      ensures TableOpen(b, tpd, s, k)
    {
      var vp := (s.vaddr + k) / FRAME;
      LoadedByte(b, kpd, tpd, fb, file, s, k);
      FlagBits(Pte(b, tpd, vp), s);
      LowBits(Entry(b, tpd, DirIndex(vp)));
      InTable(b, tpd, vp);
      UserVp(s, file, k);
    }
  }

  lemma UserVp(s: Segment, file: seq<byte>, k: nat)
    requires Placed(s, file) && k < s.memsz
    ensures UserPage((s.vaddr + k) / FRAME)
  {
  }

  // The task's pages outside the first n segments have the same entries.
  ghost predicate RestSame(a: seq<Frame>, b: seq<Frame>, tpd: nat, segments: seq<Segment>, n: nat)
    requires SpaceOk(a, tpd) && SpaceOk(b, tpd) && n <= |segments|
  {
    forall q: nat :: UserPage(q) && Uncovered(segments, n, q) ==> Pte(b, tpd, q) == Pte(a, tpd, q)
  }

  // The page is in none of the first n segments.
  ghost predicate Uncovered(segments: seq<Segment>, n: nat, vp: nat)
    requires n <= |segments|
  {
    forall i :: 0 <= i < n && segments[i].ptype == PT_LOAD ==> !Covers(segments[i], PageCount(segments[i]), vp)
  }

  ghost function TotalPages(segments: seq<Segment>, n: nat): (r: nat)
    requires n <= |segments|
  {
    if n == 0 then 0
    else TotalPages(segments, n - 1) + if segments[n - 1].ptype == PT_LOAD then PageCount(segments[n - 1]) else 0
  }

  lemma {:induction false} TotalGrows(segments: seq<Segment>, i: nat, n: nat)
    requires i < n <= |segments|
    ensures TotalPages(segments, i + 1)
            == TotalPages(segments, i) + if segments[i].ptype == PT_LOAD then PageCount(segments[i]) else 0
    ensures TotalPages(segments, i + 1) <= TotalPages(segments, n)
  {
    if i + 1 < n {
      TotalGrows(segments, i, n - 1);
    }
  }

  lemma NoneIn(mem: seq<Frame>, kpd: nat, tpd: nat, free: set<nat>, file: seq<byte>, segments: seq<Segment>)
    requires SpaceOk(mem, kpd) && SpaceOk(mem, tpd)
    requires forall i :: 0 <= i < |segments| && segments[i].ptype == PT_LOAD ==> Placed(segments[i], file)
    ensures AllIn(mem, kpd, tpd, free, file, segments, 0) && RestSame(mem, mem, tpd, segments, 0)
  {
  }

  lemma AllSkips(m: seq<Frame>, a: seq<Frame>, fa: set<nat>, kpd: nat, tpd: nat, file: seq<byte>,
                 segments: seq<Segment>, n: nat)
    requires SpaceOk(a, kpd) && SpaceOk(a, tpd) && SpaceOk(m, tpd) && n < |segments| && segments[n].ptype != PT_LOAD
    requires forall i :: 0 <= i < |segments| && segments[i].ptype == PT_LOAD ==> Placed(segments[i], file)
    requires AllIn(a, kpd, tpd, fa, file, segments, n) && RestSame(m, a, tpd, segments, n)
    ensures AllIn(a, kpd, tpd, fa, file, segments, n + 1) && RestSame(m, a, tpd, segments, n + 1)
  {
    hide SpaceOk, Pte, PageOf, Placed, Covers;
    forall i: nat, k: nat | i < n + 1 && segments[i].ptype == PT_LOAD && k < PageCount(segments[i])
                            && !TakenOver(segments, i + 1, n + 1, StartPage(segments[i]) + k)
      ensures PageOf(a, kpd, tpd, fa, file, segments[i], k)
    {
      assert !TakenOver(segments, i + 1, n, StartPage(segments[i]) + k);
    }
  }

  lemma AllGrows(m: seq<Frame>, a: seq<Frame>, fa: set<nat>, b: seq<Frame>, fb: set<nat>, kpd: nat, tpd: nat,
                 file: seq<byte>, segments: seq<Segment>, n: nat)
    requires Progress(a, fa, b, fb, kpd, tpd) && SpaceOk(m, tpd) && n < |segments| && segments[n].ptype == PT_LOAD
    requires forall i :: 0 <= i < |segments| && segments[i].ptype == PT_LOAD ==> Placed(segments[i], file)
    requires AllIn(a, kpd, tpd, fa, file, segments, n) && RestSame(m, a, tpd, segments, n)
    requires SegmentIn(b, kpd, tpd, fb, file, segments[n], PageCount(segments[n]))
    requires OthersSame(a, b, tpd, StartPage(segments[n]), PageCount(segments[n]))
    ensures AllIn(b, kpd, tpd, fb, file, segments, n + 1) && RestSame(m, b, tpd, segments, n + 1)
  {
    hide Joint, SpaceOk, Pte, Placed, Kept, PageCount, PageOf;
    JointSpaces(a, kpd, tpd, fa);
    JointSpaces(b, kpd, tpd, fb);
    forall i: nat, k: nat | i < n + 1 && segments[i].ptype == PT_LOAD && k < PageCount(segments[i])
                            && !TakenOver(segments, i + 1, n + 1, StartPage(segments[i]) + k)
      ensures PageOf(b, kpd, tpd, fb, file, segments[i], k)
    {
      if i < n {
        assert !TakenOver(segments, i + 1, n, StartPage(segments[i]) + k);
        assert !Covers(segments[n], PageCount(segments[n]), StartPage(segments[i]) + k);
        PageOfStays(a, fa, b, fb, kpd, tpd, file, segments[i], k);
      }
    }
  }

  lemma PageOfStays(a: seq<Frame>, fa: set<nat>, b: seq<Frame>, fb: set<nat>, kpd: nat, tpd: nat, file: seq<byte>,
                    s: Segment, k: nat)
    requires SpaceOk(a, kpd) && SpaceOk(a, tpd) && SpaceOk(b, kpd) && SpaceOk(b, tpd)
    requires PageOf(a, kpd, tpd, fa, file, s, k) && Kept(a, fa, b, fb, kpd, tpd, {})
    requires UserPage(StartPage(s) + k) ==> Pte(b, tpd, StartPage(s) + k) == Pte(a, tpd, StartPage(s) + k)
    ensures PageOf(b, kpd, tpd, fb, file, s, k)
  {
    hide SpaceOk, Pte, Kept, PageIn, PageImage;
    PageStays(a, fa, b, fb, kpd, tpd, StartPage(s) + k, PageImage(file, s, k), SegmentFlags(s));
  }

  lemma ProgressFrom(a: seq<Frame>, b: seq<Frame>, free: set<nat>, kpd: nat, tpd: nat)
    requires Joint(a, kpd, tpd, free) && Joint(b, kpd, tpd, free) && Kept(a, free, b, free, kpd, tpd, {})
    requires forall q: nat :: q < PAGES ==> Pte(b, kpd, q) == Pte(a, kpd, q)
    requires tpd < |a| && tpd < |b| && a[tpd] == b[tpd]
    ensures Progress(a, free, b, free, kpd, tpd)
  {
    hide Joint, Pte, Kept;
    JointSpaces(a, kpd, tpd, free);
  }

  // Storing a task entry leaves the kernel's directory alone.
  lemma KernelDirKept(mem: seq<Frame>, kpd: nat, tpd: nat, vp: nat, v: u32, free: set<nat>)
    requires Joint(mem, kpd, tpd, free) && UserPage(vp) && HasTable(mem, tpd, DirIndex(vp))
    ensures TableFrame(mem, tpd, DirIndex(vp)) < |mem| && kpd < |mem|
    ensures var r := WithEntry(mem, TableFrame(mem, tpd, DirIndex(vp)), TableIndex(vp), v);
            r[kpd] == mem[kpd] && forall d :: 0 <= d < 1024 ==> HasTable(r, kpd, d) == HasTable(mem, kpd, d)
  {
  }

  lemma PlainStays(a: seq<Frame>, fa: set<nat>, b: seq<Frame>, fb: set<nat>, kpd: nat, tpd: nat, f: nat)
    requires Progress(a, fa, b, fb, kpd, tpd) && Plain(a, kpd, tpd, fa, f)
    ensures f < |a| == |b| && Plain(b, kpd, tpd, fb, f) && b[f] == a[f]
  {
  }

  lemma SameUser(mem: seq<Frame>, tpd: nat)
    requires SpaceOk(mem, tpd)
    ensures UserSame(mem, mem, tpd)
  {
  }
}
