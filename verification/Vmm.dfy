/**
 The virtual memory manager of mm/vmm.c on one address space: map, unmap and map a
 range of pages in page tables whose frames come from the page allocator.
 */
module Vmm {
  import opened Paging
  import opened Pmm

  const PAGES: nat := 0x10_0000        // pages of a 32-bit address space
  const LOW_FRAMES: nat := 256         // frames below 1 MiB, never freed

  // The number of the page, or frame, that holds an address.
  function PageNumber(a: u32): (r: nat)
    ensures r < PAGES
  {
    a / FRAME
  }

  // The flags as they go into a table entry.
  function LowFlags(flags: u32): (r: nat)
    ensures r < 4096 && r % 2 == flags % 2
  {
    flags % 4096
  }

  // The directory and its tables are not free.
  ghost predicate Held(mem: seq<Frame>, pd: nat, free: set<nat>)
    requires pd < |mem|
  {
    pd !in free && forall d :: 0 <= d < 1024 && HasTable(mem, pd, d) ==> TableFrame(mem, pd, d) !in free
  }

  lemma HeldOutside(mem: seq<Frame>, pd: nat, free: set<nat>, f: nat)
    requires pd < |mem| && Held(mem, pd, free) && f in free
    ensures Outside(mem, pd, f)
  {
  }

  // Frames that are neither free nor part of the address space keep their contents.
  ghost predicate OthersKept(a: seq<Frame>, b: seq<Frame>, pd: nat, free: set<nat>)
    requires pd < |a|
  {
    |a| == |b| && forall f :: 0 <= f < |a| && f !in free && Outside(a, pd, f) ==> b[f] == a[f]
  }

  /** Taking one frame for a table, if needed, and writing the entry. */
  lemma MapStep(mem: seq<Frame>, pd: nat, vp: nat, v: u32, spare: nat, dirFlags: nat, free: set<nat>)
    requires SpaceOk(mem, pd) && Held(mem, pd, free) && vp < PAGES && dirFlags < 4096 && dirFlags % 2 == 1
    requires HasTable(mem, pd, DirIndex(vp)) || (spare in free && spare < |mem| && spare < PAGES)
    ensures HasTable(mem, pd, DirIndex(vp)) || Outside(mem, pd, spare)
    ensures var r := Mapped(mem, pd, vp, v, spare, dirFlags);
            && SpaceOk(r, pd) && OthersKept(mem, r, pd, free)
            && Held(r, pd, if HasTable(mem, pd, DirIndex(vp)) then free else free - {spare})
            && (forall c :: 0 <= c < 1024 && c != DirIndex(vp) ==> HasTable(r, pd, c) == HasTable(mem, pd, c))
            && HasTable(r, pd, DirIndex(vp))
            && forall q: nat :: q < PAGES ==> Pte(r, pd, q) == if q == vp then v else Pte(mem, pd, q)
  {
    hide Word, FrameOf, IsPresent, Mapped, Outside;
    if !HasTable(mem, pd, DirIndex(vp)) {
      HeldOutside(mem, pd, free, spare);
      PdOutside(mem, pd, spare);
    }
    MappedUpdates(mem, pd, vp, v, spare, dirFlags);
    var r := Mapped(mem, pd, vp, v, spare, dirFlags);
    forall f | 0 <= f < |mem| && f !in free && Outside(mem, pd, f)
      ensures r[f] == mem[f]
    {
      MappedFrame(mem, pd, vp, v, spare, dirFlags, f);
    }
    assert forall c :: 0 <= c < 1024 && c != DirIndex(vp) ==>
      HasTable(r, pd, c) == HasTable(mem, pd, c) && TableFrame(r, pd, c) == TableFrame(mem, pd, c);
  }

  lemma PdOutside(mem: seq<Frame>, pd: nat, f: nat)
    requires pd < |mem| && Outside(mem, pd, f)
    ensures f != pd
  {
  }

  // The memory after a page has been mapped; a new table takes the lowest free frame.
  ghost function MapNow(mem: seq<Frame>, pd: nat, vp: nat, v: u32, free: set<nat>, dirFlags: nat): (r: seq<Frame>)
    requires SpaceOk(mem, pd) && Held(mem, pd, free) && vp < PAGES && dirFlags < 4096
    requires forall f :: f in free ==> f < |mem| && f < PAGES
    requires HasTable(mem, pd, DirIndex(vp)) || free != {}
  {
    Mapped(mem, pd, vp, v, if HasTable(mem, pd, DirIndex(vp)) then 0 else Lowest(free), dirFlags)
  }

  // The frames left once a page has been mapped.
  ghost function FreeAfter(mem: seq<Frame>, pd: nat, vp: nat, free: set<nat>): (r: set<nat>)
    requires pd < |mem| && vp < PAGES && (HasTable(mem, pd, DirIndex(vp)) || free != {})
  {
    if HasTable(mem, pd, DirIndex(vp)) then free else free - {Lowest(free)}
  }

  // The directory indices among the n pages from v0 on (wrapping) that lack a table.
  ghost function Missing(mem: seq<Frame>, pd: nat, v0: nat, n: nat): (r: set<nat>)
    requires pd < |mem|
    decreases n
  {
    if n == 0 then {}
    else
      Missing(mem, pd, v0 + 1, n - 1)
      + if HasTable(mem, pd, DirIndex(v0 % PAGES)) then {} else {DirIndex(v0 % PAGES)}
  }

  // With one more table, at most one directory index less is missing.
  lemma {:induction false} MissingAfter(mem: seq<Frame>, r: seq<Frame>, pd: nat, v0: nat, n: nat, d: nat)
    requires pd < |mem| == |r| && d < 1024 && HasTable(r, pd, d)
    requires forall c :: 0 <= c < 1024 && c != d ==> HasTable(r, pd, c) == HasTable(mem, pd, c)
    ensures Missing(r, pd, v0, n) <= Missing(mem, pd, v0, n) - {d}
    decreases n
  {
    if n > 0 {
      MissingAfter(mem, r, pd, v0 + 1, n - 1, d);
    }
  }

  // pages of vmm_map_range, in 32-bit arithmetic.
  function RangePages(size: nat): (r: nat)
    ensures r < PAGES
  {
    (size + FRAME - 1) % 0x1_0000_0000 / FRAME
  }

  // Page number i of a range that starts at page number v0.
  function RangePage(v0: nat, i: nat): (r: nat)
    ensures r < PAGES
  {
    (v0 + i) % PAGES
  }

  lemma RangePagesDiffer(v0: nat, i: nat, j: nat)
    requires i < j < PAGES
    ensures RangePage(v0, i) != RangePage(v0, j)
  {
  }

  class AddressSpace {
    const pmm: PageAllocator
    const pd: nat
    var mem: seq<Frame>

    // The allocator and the tables are in order, though a table may have been freed.
    ghost predicate Intact()
      reads this, pmm, pmm.bitmap
    {
      pmm.Valid() && 0 !in pmm.Free() && |mem| == pmm.max && SpaceOk(mem, pd)
    }

    ghost predicate Valid()
      reads this, pmm, pmm.bitmap
    {
      Intact() && Held(mem, pd, pmm.Free())
    }

    // The entry of page vp, 0 where nothing is mapped.
    ghost function Of(vp: nat): u32
      requires Intact() && vp < PAGES
      reads this, pmm, pmm.bitmap
    {
      Pte(mem, pd, vp)
    }

    constructor (pmm_: PageAllocator, pd_: nat, mem_: seq<Frame>)
      requires pmm_.Valid() && 0 !in pmm_.Free() && |mem_| == pmm_.max && SpaceOk(mem_, pd_)
               && Held(mem_, pd_, pmm_.Free())
      ensures Valid() && pmm == pmm_ && pd == pd_ && mem == mem_
    {
      pmm, pd, mem := pmm_, pd_, mem_;
    }

    /** vmm_map_page: the entry of the page becomes frame and flags, and no other page
        changes.  Without a table and without a free frame nothing happens. */
    method MapPage(va: u32, pa: u32, flags: u32)
      requires Valid()
      modifies this, pmm, pmm.bitmap
      ensures Valid() && pmm.max == old(pmm.max) && pmm.Free() <= old(pmm.Free())
      ensures OthersKept(old(mem), mem, pd, old(pmm.Free()))
      ensures old(!HasTable(mem, pd, DirIndex(PageNumber(va))) && pmm.Free() == {}) ==>
                mem == old(mem) && pmm.Free() == {}
      ensures old(HasTable(mem, pd, DirIndex(PageNumber(va))) || pmm.Free() != {}) ==>
                && (forall q: nat :: q < PAGES ==>
                      Of(q) == if q == PageNumber(va) then MakeEntry(PageNumber(pa), LowFlags(flags)) else old(Of(q)))
                && pmm.Free() == old(FreeAfter(mem, pd, PageNumber(va), pmm.Free()))
                && mem == MapNow(old(mem), pd, PageNumber(va), MakeEntry(PageNumber(pa), LowFlags(flags)),
                                 old(pmm.Free()), TableFlags(flags))
                && HasTable(mem, pd, DirIndex(PageNumber(va)))
                && (forall c :: 0 <= c < 1024 && c != DirIndex(PageNumber(va)) ==>
                    HasTable(mem, pd, c) == old(HasTable(mem, pd, c)))
      ensures old(HasTable(mem, pd, DirIndex(PageNumber(va))) || pmm.Free() != {}) ==>
                var d, vp := old(Entry(mem, pd, DirIndex(PageNumber(va)))), PageNumber(va);
                && (UserReadable(mem, pd, vp) <==> Asks(flags, true, false) && (!IsPresent(d) || UserMay(d)))
                && (UserWritable(mem, pd, vp)
                    <==> Asks(flags, true, true) && (!IsPresent(d) || (UserMay(d) && MayWrite(d))))
    {
      hide Pte, Mapped, SpaceOk, Held, FreePages, OthersKept, Outside, HasTable, PageNumber, DirIndex, IsPresent;
      hide Asks, UserMay, MayWrite, UserReadable, UserWritable;
      var vp: nat := PageNumber(va);
      var entry := MakeEntry(PageNumber(pa), LowFlags(flags));
      ghost var free := pmm.Free();
      SpaceBounds(mem, pd, DirIndex(vp));
      var table: nat := 0;
      if !HasTable(mem, pd, DirIndex(vp)) {
        FreeBelow(pmm.bitmap[..], pmm.max);
        var pt := pmm.AllocBlock();
        if pt == 0 {
          KeptSame(mem, pd, free);
          return;
        }
        table := pt / FRAME;
      }
      MapStep(mem, pd, vp, entry, table, TableFlags(flags), free);
      MappedAccess(mem, pd, vp, PageNumber(pa), flags, table);
      SpareNotPd(mem, pd, free, table);
      mem := Mapped(mem, pd, vp, entry, table, TableFlags(flags));
    }

    // Unmapping a page with the entry e gives its frame back.
    ghost predicate Frees(e: u32)
      reads pmm
    {
      IsPresent(e) && LOW_FRAMES <= FrameOf(e) < pmm.max
    }

    /** vmm_unmap_page: the page's entry is cleared, no other page changes, and a mapped
        frame at or above 1 MiB goes back to the page allocator.  The address space stays
        valid if and only if that frame is not its directory or one of its tables. */
    method UnmapPage(va: u32)
      requires Valid()
      modifies this, pmm, pmm.bitmap
      ensures Intact() && pmm.max == old(pmm.max) && OthersKept(old(mem), mem, pd, {}) && mem[pd] == old(mem[pd])
      ensures forall q: nat :: q < PAGES ==> Of(q) == if q == PageNumber(va) then 0 else old(Of(q))
      ensures var e := old(Of(PageNumber(va)));
              pmm.Free() == if Frees(e) then old(pmm.Free()) + {FrameOf(e)} else old(pmm.Free())
      ensures Valid() <==> old(Frees(Of(PageNumber(va))) ==> Outside(mem, pd, FrameOf(Of(PageNumber(va)))))
    {
      hide SpaceOk, Held, FreePages, OthersKept, Outside, HasTable, WithEntry, Word, FrameOf, TableFrame, Entry, Pte;
      ghost var free := pmm.Free();
      hide IsPresent, PageNumber, DirIndex, PageAllocator.Valid;
      var vp: nat := PageNumber(va);
      SpaceBounds(mem, pd, DirIndex(vp));
      KeptSame(mem, pd, {});
      PteIs(mem, pd, vp);
      NothingMapped();
      if !HasTable(mem, pd, DirIndex(vp)) {
        return;
      }
      ghost var before := mem;
      var table := TableFrame(mem, pd, DirIndex(vp));
      var old_ := Entry(mem, table, TableIndex(vp));
      SetPte(mem, pd, vp, 0);
      mem := WithEntry(mem, table, TableIndex(vp), 0);
      UnmapHeld(before, pd, vp, free, FrameOf(old_));
      if IsPresent(old_) && FrameOf(old_) >= LOW_FRAMES {
        FrameAddress(FrameOf(old_));
        pmm.FreeBlock(FrameOf(old_) * FRAME);
      }
    }

    /** vmm_map_range: no page outside the range changes, and if the missing tables can be
        allocated, page i of the range gets frame i of the physical range.  The result does
        not tell whether they could. */
    method MapRange(virtStart: u32, physStart: u32, size: u32, flags: u32) returns (r: int)
      requires Valid()
      modifies this, pmm, pmm.bitmap
      ensures Valid() && r == if size == 0 then 0 else 1
      ensures old(Suffices(virtStart / FRAME, RangePages(size))) ==>
                forall i: nat :: i < RangePages(size) ==>
                  Of(RangePage(virtStart / FRAME, i)) == MakeEntry(RangePage(physStart / FRAME, i), flags % 4096)
      ensures forall q: nat :: q < PAGES
                               && (forall i: nat :: i < RangePages(size) ==> RangePage(virtStart / FRAME, i) != q) ==>
                Of(q) == old(Of(q))
    {
      hide Pte, SpaceOk, Held, FreePages, OthersKept, Outside, HasTable, Missing, MakeEntry, Suffices;
      if size == 0 {
        return 0;
      }
      var v0, p0, n := virtStart / FRAME, physStart / FRAME, RangePages(size);
      ghost var enough := Suffices(v0, n);
      var i: nat := 0;
      while i < n
        invariant i <= n && Valid() && (enough ==> Suffices(v0 + i, n - i))
        invariant enough ==>
                    forall j: nat :: j < i ==> Of(RangePage(v0, j)) == MakeEntry(RangePage(p0, j), flags % 4096)
        invariant forall q: nat :: q < PAGES && (forall j: nat :: j < i ==> RangePage(v0, j) != q) ==>
                    Of(q) == old(Of(q))
      {
        MapRangePage(v0, p0, i, n, flags);
        i := i + 1;
      }
      return 1;
    }

    // There are free frames for all missing tables of n pages from v0 on.
    ghost predicate Suffices(v0: nat, n: nat)
      requires Valid()
      reads this, pmm, pmm.bitmap
    {
      |Missing(mem, pd, v0, n)| <= |pmm.Free()|
    }

    // One iteration of vmm_map_range.
    method MapRangePage(v0: nat, p0: nat, i: nat, n: nat, flags: u32)
      requires Valid() && i < n < PAGES
      modifies this, pmm, pmm.bitmap
      ensures Valid()
      ensures old(Suffices(v0 + i, n - i)) ==>
                Suffices(v0 + (i + 1), n - (i + 1)) && Of(RangePage(v0, i)) == MakeEntry(RangePage(p0, i), flags % 4096)
      ensures forall q: nat :: q < PAGES && q != RangePage(v0, i) ==> Of(q) == old(Of(q))
      ensures forall j: nat :: j < i ==> RangePage(v0, j) != RangePage(v0, i)
    {
      hide Pte, SpaceOk, Held, FreePages, OthersKept, Outside, HasTable, MakeEntry, Missing;
      ghost var before, free, enough := mem, pmm.Free(), Suffices(v0 + i, n - i);
      var vp := RangePage(v0, i);
      forall j: nat | j < i
        ensures RangePage(v0, j) != RangePage(v0, i)
      {
        RangePagesDiffer(v0, j, i);
      }
      SpaceBounds(mem, pd, DirIndex(vp));
      if enough {
        MissingSome(mem, pd, v0 + i, n - i, free);
      }
      MapPage(vp * FRAME, RangePage(p0, i) * FRAME, flags);
      assert vp * FRAME / FRAME == vp && RangePage(p0, i) * FRAME / FRAME == RangePage(p0, i);
      SpaceBounds(mem, pd, DirIndex(vp));
      if enough {
        MissingAfter(before, mem, pd, v0 + (i + 1), n - (i + 1), DirIndex(vp));
        MissingCount(before, mem, pd, v0 + i, n - i, free);
      }
    }

    /** vmm_virt_to_phys and vmm_get_flags. */
    method VirtToPhys(va: u32) returns (pa: int)
      requires Valid()
      ensures pa == ToPhys(Of(va / FRAME), va)
    {
      hide SpaceOk, Held, FreePages;
      SpaceBounds(mem, pd, DirIndex(va / FRAME));
      if !HasTable(mem, pd, DirIndex(va / FRAME)) {
        return 0;
      }
      var e := Entry(mem, TableFrame(mem, pd, DirIndex(va / FRAME)), TableIndex(va / FRAME));
      if !IsPresent(e) {
        return 0;
      }
      pa := FrameOf(e) * FRAME + va % FRAME;
    }

    method GetFlags(va: u32) returns (flags: int)
      requires Valid()
      ensures flags == FlagsOf(Of(va / FRAME))
    {
      hide SpaceOk, Held, FreePages;
      SpaceBounds(mem, pd, DirIndex(va / FRAME));
      if !HasTable(mem, pd, DirIndex(va / FRAME)) {
        return 0;
      }
      flags := Entry(mem, TableFrame(mem, pd, DirIndex(va / FRAME)), TableIndex(va / FRAME)) % 4096;
    }
  }

  // The physical address of va under its page's entry, 0 if not present.
  function ToPhys(e: u32, va: u32): int {
    if IsPresent(e) then FrameOf(e) * FRAME + va % FRAME else 0
  }

  // One page further, at most as many tables are missing as frames are left.
  lemma MissingCount(before: seq<Frame>, mem: seq<Frame>, pd: nat, v: nat, n: nat, free: set<nat>)
    requires pd < |before| == |mem| && n > 0 && |Missing(before, pd, v, n)| <= |free|
    requires Missing(mem, pd, v + 1, n - 1) <= Missing(before, pd, v + 1, n - 1) - {DirIndex(v % PAGES)}
    ensures HasTable(before, pd, DirIndex(v % PAGES)) ==> |Missing(mem, pd, v + 1, n - 1)| <= |free|
    ensures !HasTable(before, pd, DirIndex(v % PAGES)) ==> |Missing(mem, pd, v + 1, n - 1)| <= |free| - 1
    ensures !HasTable(before, pd, DirIndex(v % PAGES)) ==> free != {}
  {
    var d := DirIndex(v % PAGES);
    if HasTable(before, pd, d) {
      SubsetCount(Missing(mem, pd, v + 1, n - 1), Missing(before, pd, v, n));
    } else {
      SubsetCount(Missing(mem, pd, v + 1, n - 1), Missing(before, pd, v, n) - {d});
    }
  }

  lemma MissingSome(mem: seq<Frame>, pd: nat, v: nat, n: nat, free: set<nat>)
    requires pd < |mem| && n > 0 && |Missing(mem, pd, v, n)| <= |free|
    ensures HasTable(mem, pd, DirIndex(v % PAGES)) || free != {}
  {
    hide HasTable;
    if !HasTable(mem, pd, DirIndex(v % PAGES)) {
      assert DirIndex(v % PAGES) in Missing(mem, pd, v, n);
    }
  }

  lemma FrameAddress(f: nat)
    ensures f * FRAME / PAGE_SIZE == f
  {
  }

  lemma NothingMapped()
    ensures !IsPresent(0)
  {
  }

  lemma PteIs(mem: seq<Frame>, pd: nat, vp: nat)
    requires SpaceOk(mem, pd) && vp < PAGES
    ensures Pte(mem, pd, vp)
            == if HasTable(mem, pd, DirIndex(vp)) then Entry(mem, TableFrame(mem, pd, DirIndex(vp)), TableIndex(vp))
                                else 0
  {
  }

  lemma UnmapHeld(mem: seq<Frame>, pd: nat, vp: nat, free: set<nat>, f: nat)
    requires SpaceOk(mem, pd) && Held(mem, pd, free) && vp < PAGES && HasTable(mem, pd, DirIndex(vp))
    ensures var r := WithEntry(mem, TableFrame(mem, pd, DirIndex(vp)), TableIndex(vp), 0);
            && Held(r, pd, free) && OthersKept(mem, r, pd, {})
            && (Held(r, pd, free + {f}) <==> Outside(mem, pd, f))
  {
    hide Word, FrameOf, IsPresent;
    var r := WithEntry(mem, TableFrame(mem, pd, DirIndex(vp)), TableIndex(vp), 0);
    assert forall c :: 0 <= c < 1024 ==>
             HasTable(r, pd, c) == HasTable(mem, pd, c) && TableFrame(r, pd, c) == TableFrame(mem, pd, c);
  }

  /** Unmapping undoes mapping: on a page that was not mapped, every page of the address
      space has the entry it had before. */
  lemma UnmapUndoesMap(mem: seq<Frame>, pd: nat, vp: nat, v: u32, spare: nat, dirFlags: nat, free: set<nat>)
    requires SpaceOk(mem, pd) && Held(mem, pd, free) && vp < PAGES && dirFlags < 4096 && dirFlags % 2 == 1
    requires HasTable(mem, pd, DirIndex(vp)) || (spare in free && spare < |mem| && spare < PAGES)
    requires Pte(mem, pd, vp) == 0
    ensures HasTable(mem, pd, DirIndex(vp)) || Outside(mem, pd, spare)
    ensures var r := Mapped(mem, pd, vp, v, spare, dirFlags);
            && SpaceOk(r, pd) && HasTable(r, pd, DirIndex(vp)) && Pte(r, pd, vp) == v
            && var u := WithEntry(r, TableFrame(r, pd, DirIndex(vp)), TableIndex(vp), 0);
               SpaceOk(u, pd) && forall q: nat :: q < PAGES ==> Pte(u, pd, q) == Pte(mem, pd, q)
  {
    hide Mapped, WithEntry, HasTable, Outside, Pte;
    MapStep(mem, pd, vp, v, spare, dirFlags, free);
    SetPte(Mapped(mem, pd, vp, v, spare, dirFlags), pd, vp, 0);
  }

  // Page i of the range has frame i, with these flags.
  ghost predicate RangeMapped(mem: seq<Frame>, pd: nat, v0: nat, p0: nat, n: nat, flags: nat)
    requires SpaceOk(mem, pd) && flags < 4096
  {
    forall i: nat :: i < n ==> Pte(mem, pd, RangePage(v0, i)) == MakeEntry(RangePage(p0, i), flags)
  }

  /** From an aligned start, every address of a mapped range translates to the physical
      start plus its offset. */
  lemma RangeTranslates(mem: seq<Frame>, pd: nat, virtStart: u32, physStart: u32, size: u32, flags: nat, k: nat)
    requires SpaceOk(mem, pd) && flags < 4096 && flags % 2 == 1
    requires RangeMapped(mem, pd, virtStart / FRAME, physStart / FRAME, RangePages(size), flags)
    requires virtStart % FRAME == 0 && physStart % FRAME == 0 && k < size && size <= 0x1_0000_0000 - FRAME
    requires virtStart + size <= 0x1_0000_0000 && physStart + size <= 0x1_0000_0000
    ensures ToPhys(Pte(mem, pd, (virtStart + k) / FRAME), virtStart + k) == physStart + k
  {
    hide Pte, SpaceOk, MakeEntry;
    var i := k / FRAME;
    assert i < RangePages(size);
    assert RangePage(virtStart / FRAME, i) == (virtStart + k) / FRAME;
    assert RangePage(physStart / FRAME, i) == (physStart + k) / FRAME;
  }

  /** Every byte of the range lies on a mapped page if and only if the start's offset in
      its page fits into the rounding of the last page. */
  lemma RangeCovers(virtStart: u32, size: u32)
    requires 0 < size
    ensures (forall k: nat :: k < size ==> InRange(virtStart, size, k))
            <==> virtStart % FRAME + size <= RangePages(size) * FRAME
  {
    var top := size + FRAME - 1;
    assert top % 0x1_0000_0000 == if top < 0x1_0000_0000 then top else top - 0x1_0000_0000;
    if virtStart % FRAME + size > RangePages(size) * FRAME {
      assert !InRange(virtStart, size, size - 1);
    }
  }

  /** One page of bytes from the middle of a page on: the last byte is not mapped. */
  lemma RangeMissesExample()
    ensures RangePages(4096) == 1 && !InRange(0x40_0800, 4096, 4095)
  {
  }

  // Byte k of the range lies on one of the pages that vmm_map_range maps.
  ghost predicate InRange(virtStart: u32, size: u32, k: nat) {
    (virtStart as nat + k) / FRAME < virtStart / FRAME + RangePages(size)
  }

  lemma SpaceBounds(mem: seq<Frame>, pd: nat, d: nat)
    requires SpaceOk(mem, pd) && d < 1024
    ensures pd < |mem| && (HasTable(mem, pd, d) ==> TableFrame(mem, pd, d) < |mem|)
  {
  }

  lemma KeptSame(mem: seq<Frame>, pd: nat, free: set<nat>)
    requires pd < |mem|
    ensures OthersKept(mem, mem, pd, free)
  {
  }

  lemma SpareNotPd(mem: seq<Frame>, pd: nat, free: set<nat>, f: nat)
    requires pd < |mem| && Held(mem, pd, free) && (f in free || f == 0)
    ensures f in free ==> f != pd
  {
  }

  // A frame in use outside the tables stays outside when a page is mapped.
  lemma OutsideMapped(mem: seq<Frame>, pd: nat, vp: nat, v: u32, free: set<nat>, dirFlags: nat, f: nat)
    requires SpaceOk(mem, pd) && Held(mem, pd, free) && vp < PAGES && dirFlags < 4096 && dirFlags % 2 == 1
    requires forall f :: f in free ==> f < |mem| && f < PAGES
    requires (HasTable(mem, pd, DirIndex(vp)) || free != {}) && f !in free && Outside(mem, pd, f)
    ensures var r := MapNow(mem, pd, vp, v, free, dirFlags);
            |r| == |mem| && Outside(r, pd, f)
  {
    hide Word, FrameOf, IsPresent, Mapped, Lowest, Pte;
    var spare := if HasTable(mem, pd, DirIndex(vp)) then 0 else Lowest(free);
    if !HasTable(mem, pd, DirIndex(vp)) {
      HeldOutside(mem, pd, free, spare);
    }
    MappedUpdates(mem, pd, vp, v, spare, dirFlags);
    var r := Mapped(mem, pd, vp, v, spare, dirFlags);
    assert forall c :: 0 <= c < 1024 && c != DirIndex(vp) ==>
      HasTable(r, pd, c) == HasTable(mem, pd, c) && TableFrame(r, pd, c) == TableFrame(mem, pd, c);
  }

  lemma EntryOf(frame: nat, flags: nat)
    requires frame < PAGES && flags < 4096
    ensures FrameOf(MakeEntry(frame, flags)) == frame && (flags % 2 == 1 ==> IsPresent(MakeEntry(frame, flags)))
  {
  }

  /** Map an unmapped page to an allocated frame, then unmap it: every page has the entry it
      had, and the frame goes back to the page allocator if it lies at or above 1 MiB. */
  method MapThenUnmap(space: AddressSpace, va: u32, pa: u32, flags: u32)
    requires space.Valid() && space.Of(PageNumber(va)) == 0 && flags % 2 == 1
    requires PageNumber(pa) < space.pmm.max && PageNumber(pa) !in space.pmm.Free()
             && Outside(space.mem, space.pd, PageNumber(pa))
    requires HasTable(space.mem, space.pd, DirIndex(PageNumber(va))) || space.pmm.Free() != {}
    modifies space, space.pmm, space.pmm.bitmap
    ensures space.Valid() && forall q: nat :: q < PAGES ==> space.Of(q) == old(space.Of(q))
    ensures space.pmm.Free() == old(FreeAfter(space.mem, space.pd, PageNumber(va), space.pmm.Free()))
                                + if pa >= 0x10_0000 then {PageNumber(pa)} else {}
  {
    assert pa >= 0x10_0000 <==> PageNumber(pa) >= 256;
    hide Pte, Mapped, SpaceOk, Held, FreePages, OthersKept, Outside, HasTable, MapNow, Lowest, MakeEntry, TableFlags;
    hide DirIndex;
    FreeBelow(space.pmm.bitmap[..], space.pmm.max);
    ghost var free := space.pmm.Free();
    hide IsPresent, FrameOf, FreeAfter, PageNumber, LowFlags, PageAllocator.Valid;
    EntryOf(PageNumber(pa), LowFlags(flags));
    OutsideMapped(space.mem, space.pd, PageNumber(va), MakeEntry(PageNumber(pa), LowFlags(flags)), free,
                  TableFlags(flags), PageNumber(pa));
    space.MapPage(va, pa, flags);
    assert space.Of(PageNumber(va)) == MakeEntry(PageNumber(pa), LowFlags(flags));
    space.UnmapPage(va);
  }

  /** A page that maps its own table, at or above 1 MiB: unmapping it frees the table while
      the directory still points to it. */
  method UnmapOwnTable(space: AddressSpace, va: u32)
    requires space.Valid() && HasTable(space.mem, space.pd, DirIndex(PageNumber(va)))
    requires var table := TableFrame(space.mem, space.pd, DirIndex(PageNumber(va)));
             LOW_FRAMES <= table && IsPresent(space.Of(PageNumber(va))) && FrameOf(space.Of(PageNumber(va))) == table
    modifies space, space.pmm, space.pmm.bitmap
    ensures space.Intact() && !space.Valid()
    ensures HasTable(space.mem, space.pd, DirIndex(PageNumber(va)))
            && TableFrame(space.mem, space.pd, DirIndex(PageNumber(va))) in space.pmm.Free()
  {
    hide Pte, FreePages, OthersKept, Word, FrameOf;
    SpaceBounds(space.mem, space.pd, DirIndex(PageNumber(va)));
    space.UnmapPage(va);
  }
}
