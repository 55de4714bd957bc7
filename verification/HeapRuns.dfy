/**
 Runs of the small-block heap: growth, allocation, release and merging in any order.
 */
module HeapRuns {
  import opened HeapTiles
  import opened Heap
  import opened HeapPieces
  import opened KernelHeap
  import opened Pmm

  // One change of the heap, as heap_grow, kmalloc, kfree and merge_blocks make it.
  datatype HeapOp = GrowOp(page: nat) | AllocOp(i: nat, size: nat) | FreeOp(block: nat) | MergeOp(i: nat)

  ghost predicate CanDo(s: State, op: HeapOp) {
    && HeapOk(s)
    && match op
       case GrowOp(page) => page != 0 && page % 8 == 0 && NewPage(s.pages, page)
       case AllocOp(i, size) =>
         i < |s.list| && s.list[i] in s.hdr
         && s.hdr[s.list[i]].size >= AlignSize(size) >= size && AlignSize(size) >= 8
       case FreeOp(block) => block in s.live && block in s.hdr
       case MergeOp(i) => Mergeable(s.hdr, s.list, i) && s.list[i + 1] in s.hdr
  }

  ghost function Do(s: State, op: HeapOp): State
    requires CanDo(s, op)
  {
    match op
    case GrowOp(page) => Grown(s, page)
    case AllocOp(i, size) => Allocated(s, i, size)
    case FreeOp(block) => Released(s, block)
    case MergeOp(i) => Merged(s, i)
  }

  ghost predicate CanRun(s: State, run: seq<HeapOp>)
    decreases |run|
  {
    run == [] || (CanDo(s, run[0]) && CanRun(Do(s, run[0]), run[1..]))
  }

  ghost function After(s: State, run: seq<HeapOp>): State
    requires CanRun(s, run)
    decreases |run|
  {
    if run == [] then s else After(Do(s, run[0]), run[1..])
  }

  // The step never releases block b.
  predicate Spares(op: HeapOp, b: nat) {
    op.FreeOp? ==> op.block != b
  }

  lemma StepOk(s: State, op: HeapOp)
    requires CanDo(s, op)
    ensures HeapOk(Do(s, op))
    ensures forall b :: b in s.live && Spares(op, b) ==>
              b in s.hdr && b in Do(s, op).live && b in Do(s, op).hdr && Do(s, op).hdr[b] == s.hdr[b]
  {
    hide HeapOk, Allocated, Grown, Merged, Mergeable, NewPage, AlignSize;
    NullNotLive(s);
    match op {
      case GrowOp(page) =>
        GrowOk(s, page);
        GrownFits(s, page, 0);
      case AllocOp(i, size) =>
        AllocatedOk(s, i, size);
      case FreeOp(block) =>
        ReleaseOk(s, block);
      case MergeOp(i) =>
        MergeOk(s, i);
        MergedLive(s, i);
    }
  }

  lemma MergedLive(s: State, i: nat)
    requires Mergeable(s.hdr, s.list, i) && s.list[i + 1] in s.hdr
    ensures Merged(s, i).live == s.live
  {
  }

  /** After every run from a good heap: free and live blocks with their headers tile the
      heap's pages exactly, their lengths add up to the pages, the free list has no repeats
      and no live block, and a block not released keeps its place and size. */
  lemma {:induction false} RunKeepsHeap(s: State, run: seq<HeapOp>)
    requires HeapOk(s) && CanRun(s, run)
    ensures var r := After(s, run);
            && HeapOk(r) && Tiles(Extents(r), r.pages) && Total(Extents(r)) == PAGE * |r.pages|
            && (forall i, j :: 0 <= i < j < |r.list| ==> r.list[i] != r.list[j])
            && (forall i :: 0 <= i < |r.list| ==> r.list[i] !in r.live)
            && forall b :: b in s.live && (forall op :: op in run ==> Spares(op, b)) ==>
                 b in s.hdr && b in r.live && b in r.hdr && r.hdr[b] == s.hdr[b]
    decreases |run|
  {
    if run == [] {
      HeapParts(s);
    } else {
      hide HeapOk, CanDo, Do, Tiles, Total, Extents;
      StepOk(s, run[0]);
      RunKeepsHeap(Do(s, run[0]), run[1..]);
    }
  }

  lemma HeapParts(s: State)
    requires HeapOk(s)
    ensures forall i :: 0 <= i < |s.list| ==> s.list[i] !in s.live
    ensures forall b :: b in s.live ==> b in s.hdr
  {
    hide Tiles, Total;
    HeapList(s);
  }

  lemma NullNotLive(s: State)
    requires HeapOk(s)
    ensures 0 !in s.live
  {
    hide Tiles, Total;
  }

  /** The empty heap is good, so all this holds of every run from boot. */
  lemma RunFromBoot(run: seq<HeapOp>)
    requires CanRun(State([], map[], [], {}), run)
    ensures var r := After(State([], map[], [], {}), run);
            Tiles(Extents(r), r.pages) && Total(Extents(r)) == PAGE * |r.pages| && |r.live| + |r.list| == |Extents(r)|
  {
    EmptyOk();
    RunKeepsHeap(State([], map[], [], {}), run);
    BlocksCounted(After(State([], map[], [], {}), run));
  }

  lemma BlocksCounted(s: State)
    requires HeapOk(s)
    ensures |s.live| + |s.list| == |Extents(s)|
  {
    hide Tiles, Total;
    HeapParts(s);
    ListCount(s.list);
    var f := set i | 0 <= i < |s.list| :: s.list[i];
    assert f !! s.live;
    assert Extents(s).Keys == f + s.live;
    assert |Extents(s)| == |Extents(s).Keys|;
  }

  lemma {:induction false} ListCount(q: seq<nat>)
    requires forall i, j :: 0 <= i < j < |q| ==> q[i] != q[j]
    ensures |set i | 0 <= i < |q| :: q[i]| == |q|
  {
    if q != [] {
      var p := q[..|q| - 1];
      ListCount(p);
      assert (set i | 0 <= i < |q| :: q[i]) == (set i | 0 <= i < |p| :: p[i]) + {q[|q| - 1]};
    }
  }

  // ---------------------------------------------------------------- small allocations

  /** kmalloc of a small block and kfree of what it returned.  The free list is what it was
      if and only if its first block was taken and it had no neighbours to merge; when no
      block fitted, the same holds of the list with the new page in front. */
  method SmallThenFree(h: KHeap, size: nat) returns (ptr: nat)
    requires h.Valid() && 0 < size < Heap.TWO_32 && IsSmall(size) && NoWrap(size)
    modifies h, h.pmm, h.pmm.bitmap
    ensures h.Valid() && h.live == old(h.live)
    ensures ptr == 0 ==> h.S() == old(h.S()) && h.pmm.Free() == old(h.pmm.Free())
    ensures var f, g := old(Pieces(h.hdr, h.list)), Pieces(h.hdr, h.list);
            ptr != 0 ==>
              if Fits(f, size) then h.pages == old(h.pages) && (g == f <==> f[0].size >= size && Loose(f))
              else
                && |h.pages| == |old(h.pages)| + 1
                && var f1 := [Piece(h.pages[|old(h.pages)|], 4080)] + f;
                   g == f1 <==> Loose(f1)
  {
    hide HeapOk, FreePages, Pieces, LargeOk, LargeAway, LiveKept, Compact, TotalSize, FirstFit, Lowest, Coalesced;
    hide Loose, Grown, Fits, Served, ListOk;
    ghost var f, n := Pieces(h.hdr, h.list), |h.pages|;
    HeapListOk(h.S());
    PiecesDistinct(h.S());
    SmallSizes(size);
    ptr := h.KmallocSmall(size);
    if ptr != 0 {
      ghost var f1 := if Fits(f, size) then f else [Piece(h.pages[n], 4080)] + f;
      ServedRoundTrip(f1, Pieces(h.hdr, h.list), size, ptr, h.hdr[ptr - HEADER].size);
      h.KfreeSmall(ptr);
    }
  }

  lemma EightIsSmall()
    ensures IsSmall(8) && NoWrap(8)
  {
  }

  lemma GivenCount(s: State, r: State, ptr: nat, size: nat)
    requires Given(s, r, ptr, size)
    ensures |r.live| == |s.live| + 1 && ptr >= HEADER && ptr - HEADER in r.hdr
  {
  }

  /** Without a free block, 8 bytes come off the front of a new page. */
  method FirstEight(h: KHeap)
    requires h.Valid() && h.list == [] && |h.pages| < MAX_PAGES && h.pmm.Free() != {}
    modifies h, h.pmm, h.pmm.bitmap
    ensures h.Valid() && |h.pages| == |old(h.pages)| + 1 && |h.live| == |old(h.live)| + 1
    ensures Pieces(h.hdr, h.list) == [Piece(h.pages[|old(h.pages)|] + 24, 4056)]
  {
    hide HeapOk, FreePages, Pieces, LargeOk, LargeAway, LiveKept, IsSmall, FirstFit, Lowest, Grown, Fits, Served;
    hide Given;
    EightIsSmall();
    ghost var s := h.S();
    ghost var n := |h.pages|;
    PiecesEmpty(h.hdr, h.list, 8);
    var ptr := h.KmallocSmall(8);
    assert [Piece(h.pages[n], 4080)] + [] == [Piece(h.pages[n], 4080)];
    GivenCount(s, h.S(), ptr, 8);
    EightBytes(h.pages[n], 4080, Pieces(h.hdr, h.list), ptr, h.hdr[ptr - HEADER].size);
  }

  /** With one free block, 8 bytes come off its front, and no page is taken. */
  method NextEight(h: KHeap, ghost a: nat, ghost n: nat)
    requires h.Valid() && Pieces(h.hdr, h.list) == [Piece(a, n)] && n >= 8
    modifies h, h.pmm, h.pmm.bitmap
    ensures h.Valid() && h.pages == old(h.pages) && |h.live| == |old(h.live)| + 1
    ensures Pieces(h.hdr, h.list) == if n < 32 then [] else [Piece(a + 24, n - 24)]
  {
    hide HeapOk, FreePages, Pieces, LargeOk, LargeAway, LiveKept, IsSmall, FirstFit, Lowest, Grown, Fits, Served;
    hide Given;
    EightIsSmall();
    ghost var s := h.S();
    FitsFirst(Piece(a, n), [], 8);
    assert [Piece(a, n)] + [] == [Piece(a, n)];
    var ptr := h.KmallocSmall(8);
    GivenCount(s, h.S(), ptr, 8);
    EightBytes(a, n, Pieces(h.hdr, h.list), ptr, h.hdr[ptr - HEADER].size);
  }

  /** A page holds 170 blocks of 8 bytes: with no free block left, so many requests take one
      page between them. */
  method FillPage(h: KHeap)
    requires h.Valid() && h.list == [] && |h.pages| < MAX_PAGES && h.pmm.Free() != {}
    modifies h, h.pmm, h.pmm.bitmap
    ensures h.Valid() && h.list == [] && |h.pages| == |old(h.pages)| + 1 && |h.live| == |old(h.live)| + 170
  {
    hide HeapOk, FreePages, Pieces, LargeOk, LargeAway;
    FirstEight(h);
    ghost var page := h.pages[|old(h.pages)|];
    var k := 1;
    while k < 170
      invariant 1 <= k <= 170 && h.Valid() && |h.live| == |old(h.live)| + k && |h.pages| == |old(h.pages)| + 1
      invariant Pieces(h.hdr, h.list) == if k == 170 then [] else [Piece(page + 24 * k, 4080 - 24 * k)]
    {
      NextEight(h, page + 24 * k, 4080 - 24 * k);
      k := k + 1;
    }
    PiecesEmpty(h.hdr, h.list, 8);
  }

  // ---------------------------------------------------------------- large allocations

  /** kmalloc of a large block and kfree of what it returned: the free pages are what they
      were, if and only if the pages taken were consecutive, and then the heap is valid. */
  method LargeThenFree(h: KHeap, size: nat)
    requires h.Valid() && 0 < size < Heap.TWO_32 && !IsSmall(size) && h.pmm.Free() != {}
             && PagesNeeded(size) <= |h.pmm.Free()|
    modifies h, h.pmm, h.pmm.bitmap
    ensures h.Intact() && h.S() == old(h.S()) && h.large == old(h.large)
    ensures var f := old(h.pmm.Free());
            h.pmm.Free() == f <==> PagesNeeded(size) > 0 && PageRange(Lowest(f), PagesNeeded(size)) <= f
    ensures h.pmm.Free() == old(h.pmm.Free()) ==> h.Valid()
  {
    hide HeapOk, FreePages, PageRange, Pmm.Below, TakeLowest, TotalSize, LargeOk, LargeAway, Unused, LiveKept;
    hide Compact, PagesNeeded, IsSmall;
    ghost var f, large := h.pmm.Free(), h.large;
    FreeBelow(h.pmm.bitmap[..], h.pmm.max);
    LargeRoundTrip(f, PagesNeeded(size), h.pmm.max);
    var ptr := h.Kmalloc(size);
    assert h.large == large[ptr - 4 := f - h.pmm.Free()];
    h.Kfree(ptr);
    assert h.large == large;
  }
}
