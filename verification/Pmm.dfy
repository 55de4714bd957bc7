/**
 The physical page allocator of mm/pmm.c: one bit per 4096-byte page in an array of
 32-bit words, which refines the set of free pages.
 */
module Pmm {
  import opened Bits

  const PAGE_SIZE: nat := 4096
  const MEMORY_LIMIT: nat := 0x800_0000
  const WORDS: nat := 1024                // MEMORY_LIMIT / PAGE_SIZE / 32
  const TWO_32: nat := 0x1_0000_0000

  // bitmap_test on the words of the bitmap.
  predicate Test(b: seq<nat>, i: nat)
    requires i < 32 * |b|
  {
    BitOf(b[i / 32], i % 32)
  }

  // bitmap_set and bitmap_unset.
  function WithSet(b: seq<nat>, i: nat): (r: seq<nat>)
    requires i < 32 * |b|
    ensures |r| == |b|
  {
    b[i / 32 := SetIn(b[i / 32], i % 32)]
  }

  function WithClear(b: seq<nat>, i: nat): (r: seq<nat>)
    requires i < 32 * |b|
    ensures |r| == |b|
  {
    b[i / 32 := ClearIn(b[i / 32], i % 32)]
  }

  /** Setting or clearing bit i changes bit i and no other. */
  lemma BitUpdate(b: seq<nat>, i: nat, j: nat)
    requires i < 32 * |b| && j < 32 * |b|
    ensures Test(WithSet(b, i), j) <==> i == j || Test(b, j)
    ensures Test(WithClear(b, i), j) <==> i != j && Test(b, j)
  {
    hide BitOf, SetIn, ClearIn;
    SetOneBit(b[i / 32], i % 32, j % 32);
    ClearOneBit(b[i / 32], i % 32, j % 32);
  }

  // ---------------------------------------------------------------- the set of free pages

  ghost function FreePages(b: seq<nat>, max: nat): (r: set<nat>)
    requires max <= 32 * |b|
  {
    set i | 0 <= i < max && !Test(b, i)
  }

  lemma FreeAfterSet(b: seq<nat>, max: nat, i: nat)
    requires i < max <= 32 * |b|
    ensures FreePages(WithSet(b, i), max) == FreePages(b, max) - {i}
  {
    hide Test, WithSet;
    forall j | 0 <= j < max
      ensures Test(WithSet(b, i), j) <==> i == j || Test(b, j)
    {
      BitUpdate(b, i, j);
    }
  }

  lemma FreeAfterClear(b: seq<nat>, max: nat, i: nat)
    requires i < max <= 32 * |b|
    ensures FreePages(WithClear(b, i), max) == FreePages(b, max) + {i}
  {
    hide Test, WithClear;
    forall j | 0 <= j < max
      ensures Test(WithClear(b, i), j) <==> i != j && Test(b, j)
    {
      BitUpdate(b, i, j);
    }
  }

  // The least page of a set.
  ghost function Lowest(s: set<nat>): (r: nat)
    requires s != {}
    ensures r in s && forall x :: x in s ==> r <= x
  {
    var x :| x in s;
    if s == {x} then x
    else
      var y := Lowest(s - {x});
      assert forall z :: z in s ==> z == x || z in s - {x};
      if x < y then x else y
  }

  // The pages start .. start + count - 1.
  ghost function PageRange(start: nat, count: nat): (r: set<nat>)
    ensures forall p :: p in r <==> start <= p < start + count
    ensures |r| == count
  {
    if count == 0 then {} else PageRange(start, count - 1) + {start + count - 1}
  }

  ghost function Below(pages: set<nat>, max: nat): (r: set<nat>) {
    set i | i in pages && i < max
  }

  // The first page at or above base, in 32-bit arithmetic.
  function RegionStart(base: nat): nat {
    (base + PAGE_SIZE - 1) % TWO_32 / PAGE_SIZE
  }

  class PageAllocator {
    const bitmap: array<nat>
    var used: nat
    var max: nat

    ghost predicate Valid()
      reads this, bitmap
    {
      bitmap.Length == WORDS && max <= 32 * WORDS && used + |Free()| == max
    }

    ghost function Free(): (r: set<nat>)
      requires bitmap.Length == WORDS && max <= 32 * WORDS
      reads this, bitmap
    {
      FreePages(bitmap[..], max)
    }

    // pmm_init: everything is used.
    constructor (memSize: nat)
      requires memSize <= MEMORY_LIMIT
      ensures Valid() && max == memSize / PAGE_SIZE && Free() == {}
    {
      max := memSize / PAGE_SIZE;
      used := memSize / PAGE_SIZE;
      bitmap := new nat[WORDS](_ => Ones(32));
      new;
      forall i | 0 <= i < max
        ensures Test(bitmap[..], i)
      {
        OnesBits(32, i % 32);
      }
      assert Free() == {};
    }

    method TestBit(i: nat) returns (r: bool)
      requires Valid() && i < max
      ensures r <==> i !in Free()
    {
      r := BitOf(bitmap[i / 32], i % 32);
    }

    method SetBit(i: nat)
      requires Valid() && i < max
      modifies bitmap
      ensures bitmap.Length == WORDS && Free() == old(Free()) - {i}
    {
      hide Test;
      ghost var b := bitmap[..];
      bitmap[i / 32] := SetIn(bitmap[i / 32], i % 32);
      assert bitmap[..] == WithSet(b, i);
      FreeAfterSet(b, max, i);
    }

    method ClearBit(i: nat)
      requires Valid() && i < max
      modifies bitmap
      ensures bitmap.Length == WORDS && Free() == old(Free()) + {i}
    {
      hide Test;
      ghost var b := bitmap[..];
      bitmap[i / 32] := ClearIn(bitmap[i / 32], i % 32);
      assert bitmap[..] == WithClear(b, i);
      FreeAfterClear(b, max, i);
    }

    /** pmm_alloc_block: the address of the lowest free page, or 0 when there is none.
        The search cannot fail once the counter says that a page is free. */
    method AllocBlock() returns (addr: nat)
      requires Valid()
      modifies this, bitmap
      ensures Valid() && max == old(max)
      ensures old(Free()) == {} ==> addr == 0 && Free() == {} && used == old(used)
      ensures old(Free()) != {} ==>
                && addr == Lowest(old(Free())) * PAGE_SIZE && Free() == old(Free()) - {Lowest(old(Free()))}
                && used == old(used) + 1
    {
      hide FreePages, Test;
      FreeBelow(bitmap[..], max);
      if used >= max {
        assert |Free()| == 0;
        return 0;
      }
      var i := 0;
      while i < max
        invariant 0 <= i <= max == old(max) && used == old(used) && Valid() && Free() == old(Free())
        invariant forall j :: 0 <= j < i ==> j !in Free()
        invariant forall j :: j in Free() ==> j < max
      {
        var taken := TestBit(i);
        if !taken {
          assert i == Lowest(Free());
          SetBit(i);
          used := used + 1;
          return i * PAGE_SIZE;
        }
        i := i + 1;
      }
      assert false;
    }

    // Mark a page free or used, if it exists and is not so already.
    method Release(bit: nat)
      requires Valid()
      modifies this, bitmap
      ensures Valid() && max == old(max)
      ensures Free() == old(Free()) + (if bit < max then {bit} else {})
    {
      hide FreePages, Test;
      if bit < max {
        var taken := TestBit(bit);
        if taken {
          CountUsed(bitmap[..], max, bit);
          ClearBit(bit);
          used := used - 1;
        } else {
          assert Free() + {bit} == Free();
        }
      }
    }

    method Reserve(bit: nat)
      requires Valid()
      modifies this, bitmap
      ensures Valid() && max == old(max)
      ensures Free() == old(Free()) - {bit}
    {
      hide FreePages, Test;
      FreeBelow(bitmap[..], max);
      if bit < max {
        var taken := TestBit(bit);
        if !taken {
          SetBit(bit);
          used := used + 1;
        }
      }
    }

    /** pmm_free_block: the page that holds the address becomes free, if it exists. */
    method FreeBlock(addr: nat)
      requires Valid()
      modifies this, bitmap
      ensures Valid() && max == old(max)
      ensures Free() == old(Free()) + (if addr / PAGE_SIZE < max then {addr / PAGE_SIZE} else {})
    {
      Release(addr / PAGE_SIZE);
    }

    /** pmm_init_region: frees `size / 4096` pages from the first page boundary at or
        above base on. */
    method InitRegion(base: nat, size: nat)
      requires Valid() && base < TWO_32 && size < TWO_32
      modifies this, bitmap
      ensures Valid() && max == old(max)
      ensures Free() == old(Free()) + Below(PageRange(RegionStart(base), size / PAGE_SIZE), max)
    {
      hide FreePages, Test, PageRange, Below;
      var start := RegionStart(base);
      var blocks: nat := size / PAGE_SIZE;
      var i: nat := 0;
      ghost var before := Free();
      RangeEmpty(start, max);
      while i < blocks
        invariant i <= blocks && Valid() && max == old(max)
        invariant Free() == before + Below(PageRange(start, i), max)
      {
        RangeStep(start, i, max);
        Release(start + i);
        i := i + 1;
      }
    }

    /** pmm_deinit_region: reserves `size / 4096` pages from the page that holds base on. */
    method DeinitRegion(base: nat, size: nat)
      requires Valid() && base < TWO_32 && size < TWO_32
      modifies this, bitmap
      ensures Valid() && max == old(max)
      ensures Free() == old(Free()) - PageRange(base / PAGE_SIZE, size / PAGE_SIZE)
    {
      hide FreePages, Test, PageRange, Below;
      var start := base / PAGE_SIZE;
      var blocks: nat := size / PAGE_SIZE;
      var i: nat := 0;
      ghost var before := Free();
      RangeEmpty(start, max);
      while i < blocks
        invariant i <= blocks && Valid() && max == old(max)
        invariant Free() == before - PageRange(start, i)
      {
        RangeStep(start, i, max);
        Reserve(start + i);
        i := i + 1;
      }
    }
  }

  lemma FreeBelow(b: seq<nat>, max: nat)
    requires max <= 32 * |b|
    ensures forall i :: i in FreePages(b, max) ==> i < max
  {
  }

  // A used page exists only while the number of free pages is below max.
  lemma CountUsed(b: seq<nat>, max: nat, i: nat)
    requires i < max <= 32 * |b| && i !in FreePages(b, max)
    ensures |FreePages(b, max)| < max
  {
    var all := PageRange(0, max);
    assert FreePages(b, max) <= all - {i};
    SubsetCount(FreePages(b, max), all - {i});
  }

  lemma {:induction false} SubsetCount(a: set<nat>, b: set<nat>)
    requires a <= b
    ensures |a| <= |b|
  {
    if a != {} {
      var x :| x in a;
      SubsetCount(a - {x}, b - {x});
    }
  }

  lemma RangeEmpty(start: nat, max: nat)
    ensures PageRange(start, 0) == {} && Below(PageRange(start, 0), max) == {}
  {
  }

  lemma RangeStep(start: nat, i: nat, max: nat)
    ensures PageRange(start, i + 1) == PageRange(start, i) + {start + i}
    ensures Below(PageRange(start, i + 1), max)
            == Below(PageRange(start, i), max) + (if start + i < max then {start + i} else {})
  {
  }

  // ---------------------------------------------------------------- regions and bytes

  // The pages that lie entirely in base .. base + size - 1.
  ghost predicate Inside(p: int, base: nat, size: nat) {
    base <= p * PAGE_SIZE && (p + 1) * PAGE_SIZE <= base + size
  }

  // The pages that share a byte with base .. base + size - 1.
  ghost predicate Touches(p: int, base: nat, size: nat) {
    size > 0 && p * PAGE_SIZE < base + size && base < (p + 1) * PAGE_SIZE
  }

  /** pmm_init_region frees exactly the pages inside the region if and only if the base is
      aligned, the sub-page rests of base and size make up a page, or no page is freed. */
  lemma InitRegionExact(base: nat, size: nat)
    requires base + size <= TWO_32
    ensures (forall p: nat :: p in PageRange(RegionStart(base), size / PAGE_SIZE) <==> Inside(p, base, size))
            <==> base % PAGE_SIZE == 0 || base % PAGE_SIZE + size % PAGE_SIZE >= PAGE_SIZE || size < PAGE_SIZE
  {
    hide PageRange, Inside;
    var start, blocks, end := RegionStart(base), size / PAGE_SIZE, (base + size) / PAGE_SIZE;
    RegionShape(base, size);
    forall p: nat
      ensures Inside(p, base, size) <==> (base + PAGE_SIZE - 1) / PAGE_SIZE <= p < end
    {
      InsideIff(base, size, p);
    }
    if base % PAGE_SIZE != 0 && base % PAGE_SIZE + size % PAGE_SIZE < PAGE_SIZE && size >= PAGE_SIZE {
      assert end in PageRange(start, blocks) && !Inside(end, base, size);
    }
  }

  // First and last page of a region, from its sub-page rests.
  lemma RegionShape(base: nat, size: nat)
    requires base + size <= TWO_32
    ensures var first := (base + PAGE_SIZE - 1) / PAGE_SIZE;
            && first == base / PAGE_SIZE + (if base % PAGE_SIZE == 0 then 0 else 1)
            && (base + size) / PAGE_SIZE == base / PAGE_SIZE + size / PAGE_SIZE
                                            + (if base % PAGE_SIZE + size % PAGE_SIZE >= PAGE_SIZE then 1 else 0)
            && (RegionStart(base) == first || size / PAGE_SIZE == 0)
  {
    if base + PAGE_SIZE - 1 < TWO_32 {
      assert (base + PAGE_SIZE - 1) % TWO_32 == base + PAGE_SIZE - 1;
    }
  }

  lemma InsideIff(base: nat, size: nat, p: nat)
    ensures Inside(p, base, size) <==> (base + PAGE_SIZE - 1) / PAGE_SIZE <= p < (base + size) / PAGE_SIZE
  {
  }

  /** Two pages from the middle of page 0 on: only page 1 lies inside, and page 2 is freed. */
  lemma InitRegionExample()
    ensures 2 in PageRange(RegionStart(2048), 8192 / PAGE_SIZE) && !Inside(2, 2048, 8192)
  {
    assert RegionStart(2048) == 1;
  }

  /** pmm_deinit_region reserves every page that the region touches if and only if base
      and size are both multiples of the page size, or the region is empty. */
  lemma DeinitRegionExact(base: nat, size: nat)
    ensures (forall p: nat :: p in PageRange(base / PAGE_SIZE, size / PAGE_SIZE) <==> Touches(p, base, size))
            <==> size == 0 || (base % PAGE_SIZE == 0 && size % PAGE_SIZE == 0)
  {
    var start, blocks := base / PAGE_SIZE, size / PAGE_SIZE;
    if size != 0 && !(base % PAGE_SIZE == 0 && size % PAGE_SIZE == 0) {
      var next := start + blocks;
      assert next !in PageRange(start, blocks) && Touches(next, base, size);
    }
  }

  /** One page from the middle of page 0 on: page 1 is touched and stays free. */
  lemma DeinitRegionExample()
    ensures Touches(1, 2048, 4096) && 1 !in PageRange(2048 / PAGE_SIZE, 4096 / PAGE_SIZE)
  {
    assert PageRange(0, 1) == {0};
  }
}
