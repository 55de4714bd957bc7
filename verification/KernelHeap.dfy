/**
 kmalloc and kfree of mm/heap.c over the page allocator: first fit with splitting,
 growth with a retry, partial merging, and whole pages for large requests.
 */
module KernelHeap {
  import opened HeapTiles
  import opened Heap
  import opened HeapPieces
  import opened Pmm

  // align_size and total_size, in 32-bit arithmetic.
  function AlignSize(size: nat): nat {
    (size + 7) % Heap.TWO_32 / 8 * 8
  }

  function TotalSize(size: nat): nat {
    (HEADER + AlignSize(size)) % Heap.TWO_32
  }

  predicate IsSmall(size: nat) {
    TotalSize(size) < PAGE / 2
  }

  // The size does not wrap around when rounded up and given a header.
  predicate NoWrap(size: nat) {
    size <= Heap.TWO_32 - 24
  }

  /** Small requests are those of at most 2024 bytes, which with their header lie below half a
      page, and the 23 sizes whose total wraps. */
  lemma SmallSizes(size: nat)
    requires 0 < size < Heap.TWO_32
    ensures IsSmall(size) <==> size <= 2024 || size > 0xFFFF_FFE8
    ensures IsSmall(size) && NoWrap(size) ==> size <= AlignSize(size) < size + 8 && 8 <= AlignSize(size) <= 2024
    ensures !NoWrap(size) ==> IsSmall(size) && (AlignSize(size) == 0 || AlignSize(size) >= Heap.TWO_32 - 16)
  {
    if size + 7 >= Heap.TWO_32 {
      assert (size + 7) % Heap.TWO_32 == size + 7 - Heap.TWO_32;
    } else {
      assert (size + 7) % Heap.TWO_32 == size + 7;
    }
  }

  // The first list element that holds `size` bytes, or the length of the list.
  ghost function FirstFit(hdr: map<nat, Block>, list: seq<nat>, size: nat): (r: nat)
    ensures r <= |list|
    ensures r < |list| ==> list[r] in hdr && hdr[list[r]].size >= size
    ensures forall i :: 0 <= i < r ==> list[i] !in hdr || hdr[list[i]].size < size
  {
    if list == [] || (list[0] in hdr && hdr[list[0]].size >= size) then 0
    else 1 + FirstFit(hdr, list[1..], size)
  }

  lemma FirstFitIs(hdr: map<nat, Block>, list: seq<nat>, size: nat, r: nat)
    requires r <= |list| && (r < |list| ==> list[r] in hdr && hdr[list[r]].size >= size)
    requires forall i :: 0 <= i < r ==> list[i] in hdr && hdr[list[i]].size < size
    ensures FirstFit(hdr, list, size) == r
  {
  }

  /** Sizes and addresses are multiples of 8, so a block that holds the request unrounded
      holds it rounded up. */
  lemma UnroundedTestIsEnough(blockSize: nat, size: nat)
    requires 0 < size && NoWrap(size) && blockSize % 8 == 0
    ensures blockSize >= size <==> blockSize >= AlignSize(size)
  {
    assert (size + 7) % Heap.TWO_32 == size + 7;
  }

  /** kfree's page-alignment test tells small pointers from large ones: it fails for every
      block, and holds for everything that a large kmalloc handed out. */
  lemma PointerKinds(b: nat, pages: seq<nat>, words: map<nat, nat>, large: map<nat, set<nat>>)
    requires b % 8 == 0 && LargeOk(pages, words, large)
    ensures (b + HEADER - 4) % PAGE != 0 && b + HEADER - 4 !in large
    ensures forall a :: a in large ==> a % PAGE == 0
  {
  }

  // What kmalloc does with the list element it found.
  ghost function Allocated(s: State, i: nat, size: nat): State
    requires HeapOk(s) && i < |s.list| && s.hdr[s.list[i]].size >= AlignSize(size) && AlignSize(size) >= 8
  {
    var r := if s.hdr[s.list[i]].size - AlignSize(size) >= MIN_BLOCK then SplitAt(s, i, AlignSize(size)) else s;
    AllocReady(s, i, size);
    Taken(r, i)
  }

  lemma AllocReady(s: State, i: nat, size: nat)
    requires HeapOk(s) && i < |s.list| && s.hdr[s.list[i]].size >= AlignSize(size) && AlignSize(size) >= 8
    ensures var r := if s.hdr[s.list[i]].size - AlignSize(size) >= MIN_BLOCK then SplitAt(s, i, AlignSize(size)) else s;
            HeapOk(r) && LiveKept(s, r, 0) && i < |r.list| && r.list[i] == s.list[i] && r.list[i] in r.hdr
            && (i > 0 ==> r.list[i - 1] in r.hdr)
            && r.pages == s.pages && r.live == s.live
            && r.hdr[r.list[i]].size >= AlignSize(size)
  {
    hide HeapOk;
    HeapList(s);
    if s.hdr[s.list[i]].size - AlignSize(size) >= MIN_BLOCK {
      SplitOk(s, i, AlignSize(size));
      HeapList(SplitAt(s, i, AlignSize(size)));
      TakeOk(SplitAt(s, i, AlignSize(size)), i);
    } else {
      TakeOk(s, i);
    }
  }

  lemma HeapList(s: State)
    requires HeapOk(s)
    ensures forall i :: 0 <= i < |s.list| ==> s.list[i] in s.hdr && s.list[i] != 0 && s.list[i] !in s.live
    ensures forall i :: 0 <= i < |s.list| ==> s.hdr[s.list[i]].free && s.hdr[s.list[i]].next == NextIn(s.list, i)
    ensures forall i :: 0 <= i < |s.list| ==> s.hdr[s.list[i]].size % 8 == 0 && s.list[i] % 8 == 0
  {
    forall i | 0 <= i < |s.list|
      ensures IsFreeBlock(s, i) && s.list[i] in Blocks(s)
    {
    }
  }

  /** The block handed out holds the request, was free, and every other live block keeps
      its header. */
  lemma AllocatedOk(s: State, i: nat, size: nat)
    requires HeapOk(s) && i < |s.list| && s.hdr[s.list[i]].size >= AlignSize(size) >= size && AlignSize(size) >= 8
    ensures var r := Allocated(s, i, size);
            && HeapOk(r) && LiveKept(s, r, 0) && r.pages == s.pages
            && s.list[i] !in s.live && r.live == s.live + {s.list[i]}
            && s.list[i] in r.hdr && r.hdr[s.list[i]].size >= size && s.list[i] % 8 == 0
  {
    hide HeapOk;
    HeapList(s);
    AllocReady(s, i, size);
    var q := if s.hdr[s.list[i]].size - AlignSize(size) >= MIN_BLOCK then SplitAt(s, i, AlignSize(size)) else s;
    TakeOk(q, i);
  }

  /** The free pieces after it, and the size of the block handed out. */
  lemma AllocatedPieces(s: State, i: nat, size: nat)
    requires HeapOk(s) && i < |s.list| && NoWrap(size) && size > 0 && i == FirstFit(s.hdr, s.list, size)
    requires s.hdr[s.list[i]].size >= AlignSize(size) && AlignSize(size) >= 8
    ensures var r := Allocated(s, i, size);
            s.list[i] in r.hdr
            && ServedFrom(Pieces(s.hdr, s.list), Pieces(r.hdr, r.list), i, size, r.hdr[s.list[i]].size)
  {
    hide HeapOk, SplitAt, Taken, FirstFit, ServedFrom, Pieces, PieceAt, ListOk, AlignSize;
    AllocReady(s, i, size);
    AlignIs(size);
    PiecesFit(s.hdr, s.list, i, size);
    var q := if s.hdr[s.list[i]].size - AlignSize(size) >= MIN_BLOCK then SplitAt(s, i, AlignSize(size)) else s;
    if s.hdr[s.list[i]].size - AlignSize(size) >= MIN_BLOCK {
      SplitPieces(s, i, AlignSize(size));
    }
    ServedCut(Pieces(s.hdr, s.list), i, size, Pieces(q.hdr, q.list));
    HeapListOk(q);
    TakenPieces(q, i);
    TakeOk(q, i);
  }

  lemma AlignIs(size: nat)
    requires NoWrap(size)
    ensures AlignSize(size) == (size + 7) / 8 * 8 && AlignSize(size) % 8 == 0
  {
    assert (size + 7) % Heap.TWO_32 == size + 7;
  }

  // The first element that fits is the first piece that fits.
  lemma PiecesFit(hdr: map<nat, Block>, list: seq<nat>, i: nat, size: nat)
    requires i == FirstFit(hdr, list, size) && size > 0
    ensures forall j :: 0 <= j < i ==> Pieces(hdr, list)[j].size < size
    ensures i < |list| ==> Pieces(hdr, list)[i] == Piece(list[i], hdr[list[i]].size)
    ensures Fits(Pieces(hdr, list), size) <==> i < |list|
  {
    if i < |list| {
      assert Pieces(hdr, list)[i].size >= size;
    } else {
      forall j | 0 <= j < |list|
        ensures Pieces(hdr, list)[j].size < size
      {
        assert list[j] !in hdr || hdr[list[j]].size < size;
      }
    }
  }

  lemma HeapListOk(s: State)
    requires HeapOk(s)
    ensures ListOk(s)
  {
  }

  /** No block is larger than the heap. */
  lemma BlockBound(s: State, i: nat)
    requires HeapOk(s) && i < |s.list|
    ensures s.list[i] in s.hdr && s.hdr[s.list[i]].size <= PAGE * |s.pages|
  {
    assert IsFreeBlock(s, i) && s.list[i] in Blocks(s);
    TotalBound(Extents(s), s.list[i]);
  }

  lemma TotalBound(ext: map<nat, nat>, a: nat)
    requires a in ext && forall b :: b in ext ==> b < ext[b]
    ensures ext[a] - a <= Total(ext)
  {
    TotalRemove(ext, a);
    TotalPositive(ext - {a});
  }

  lemma {:induction false} TotalPositive(ext: map<nat, nat>)
    requires forall b :: b in ext ==> b < ext[b]
    ensures Total(ext) >= 0
    decreases |ext|
  {
    if ext != map[] {
      var a :| a in ext;
      TotalRemove(ext, a);
      TotalPositive(ext - {a});
    }
  }

  // No two neighbours on the list are adjacent in memory.
  ghost predicate Compact(s: State) {
    forall i: nat :: !Mergeable(s.hdr, s.list, i)
  }

  class KHeap {
    const pmm: PageAllocator
    var pages: seq<nat>
    var hdr: map<nat, Block>
    var words: map<nat, nat>       // sizes stored in front of large allocations
    var freeList: nat
    ghost var list: seq<nat>
    ghost var live: set<nat>
    ghost var large: map<nat, set<nat>>   // the pages taken for each large allocation in use

    ghost function S(): State
      reads this
    {
      State(pages, hdr, list, live)
    }

    // The heap's pages are distinct pages of memory that the page allocator has given out.
    ghost predicate PagesHeld()
      reads this`pages, pmm, pmm.bitmap
    {
      && pmm.Valid() && 0 !in pmm.Free()
      && forall i :: 0 <= i < |pages| ==> pages[i] % PAGE == 0 && pages[i] / PAGE !in pmm.Free()
    }

    // So are the pages of the large allocations, and no page has two uses.
    ghost predicate LargeHeld()
      reads this`pages, this`words, this`large, pmm, pmm.bitmap
    {
      pmm.Valid() && LargeOk(pages, words, large) && LargeAway(large, pmm.Free())
    }

    ghost predicate Valid()
      reads this, pmm, pmm.bitmap
    {
      PagesHeld() && LargeHeld() && HeapOk(S()) && |pages| <= MAX_PAGES && freeList == Head(list)
    }

    // Valid but for what the page allocator may have got back too much.
    ghost predicate Intact()
      reads this, pmm, pmm.bitmap
    {
      && pmm.Valid() && 0 !in pmm.Free() && (forall i :: 0 <= i < |pages| ==> pages[i] % PAGE == 0)
      && LargeOk(pages, words, large) && HeapOk(S()) && |pages| <= MAX_PAGES && freeList == Head(list)
    }

    // The page allocator has only what is in no use: this is what makes an intact heap valid.
    lemma ValidIff()
      requires Intact()
      ensures Valid() <==> Unused(pages, large, pmm.Free())
    {
      hide HeapOk, FreePages, LargeOk, LargeAway;
    }

    constructor (pmm_: PageAllocator)
      requires pmm_.Valid() && 0 !in pmm_.Free()
      ensures Valid() && pmm == pmm_ && pages == [] && live == {} && large == map[]
    {
      pmm, pages, hdr, words, freeList, list, live, large := pmm_, [], map[], map[], 0, [], {}, map[];
      new;
      EmptyOk();
    }

    /** heap_grow: 0 when the heap is at its limit or no page is free; otherwise one new
        page, covered by one free block at the head of the list. */
    method Grow() returns (ok: bool)
      requires Valid()
      modifies this, pmm, pmm.bitmap
      ensures Valid()
      ensures ok <==> |old(pages)| < 256 && old(pmm.Free()) != {}
      ensures !ok ==> S() == old(S()) && pmm.Free() == old(pmm.Free())
      ensures ok ==> var p := Lowest(old(pmm.Free())) * PAGE_SIZE;
                     && S() == Grown(old(S()), p) && pmm.Free() == old(pmm.Free()) - {Lowest(old(pmm.Free()))}
                     && pages == old(pages) + [p] && Pieces(hdr, list) == [Piece(p, 4080)] + old(Pieces(hdr, list))
      ensures LiveKept(old(S()), S(), 0) && words == old(words) && large == old(large)
    {
      hide HeapOk, LiveKept, NewPage, FreePages, Grown, Lowest, LargeOk, LargeAway, Pieces, PieceAt;
      ghost var s := S();
      LiveSame(s);
      if |pages| >= MAX_PAGES {
        return false;
      }
      ghost var free := pmm.Free();
      var page := pmm.AllocBlock();
      if page == 0 {
        return false;
      }
      ok := true;
      FreshPage(pages, page, Lowest(free));
      PageAligned(Lowest(free));
      GrowOk(s, page);
      GrownPieces(s, page);
      HeldGrow(pages, free, Lowest(free));
      LargeGrow(pages, words, large, free, Lowest(free));
      AddPage(page);
    }

    // The new page becomes one free block at the head of the list.
    method AddPage(page: nat)
      requires freeList == Head(list)
      modifies this`pages, this`hdr, this`freeList, this`list
      ensures S() == Grown(old(S()), page) && freeList == Head(list) && pages == old(pages) + [page]
    {
      pages := pages + [page];
      hdr := hdr[page := Block(PAGE - HEADER, freeList, true, MAGIC)];
      freeList := page;
      list := [page] + list;
    }

    // The search of kmalloc's small path: the first list element that fits.
    method Search(size: nat) returns (prev: nat, curr: nat, ghost i: nat)
      requires Valid()
      ensures i == FirstFit(hdr, list, size)
      ensures curr == if FirstFit(hdr, list, size) < |list| then list[FirstFit(hdr, list, size)] else 0
      ensures i < |list| && i > 0 ==> prev == list[i - 1]
      ensures i == 0 ==> prev == 0
    {
      hide HeapOk, FirstFit, FreePages, PagesHeld, LargeHeld;
      HeapList(S());
      prev, curr, i := 0, freeList, 0;
      while curr != 0
        invariant 0 <= i <= |list| && curr == if i < |list| then list[i] else 0
        invariant i > 0 ==> prev == list[i - 1]
        invariant i == 0 ==> prev == 0
        invariant forall j :: 0 <= j < i ==> list[j] in hdr && hdr[list[j]].size < size
        decreases |list| - i
      {
        if hdr[curr].free && hdr[curr].size >= size {
          FirstFitIs(hdr, list, size, i);
          return;
        }
        prev, curr, i := curr, hdr[curr].next, i + 1;
      }
      FirstFitIs(hdr, list, size, i);
    }

    // split_block: cut the block curr, element i of the list, if enough would remain.
    method SplitBlock(curr: nat, aligned: nat, ghost i: nat)
      requires i < |list| && curr == list[i] && curr in hdr && hdr[curr].size >= aligned
      modifies this`hdr, this`list
      ensures S() == if old(hdr)[curr].size - aligned >= MIN_BLOCK then SplitAt(old(S()), i, aligned) else old(S())
    {
      var h := hdr[curr];
      if h.size - aligned >= MIN_BLOCK {
        var rest := curr + HEADER + aligned;
        hdr := hdr[rest := Block(h.size - aligned - HEADER, h.next, true, MAGIC)]
                  [curr := h.(size := aligned, next := rest)];
        list := list[..i + 1] + [rest] + list[i + 1..];
      }
    }

    // Mark curr, element i of the list, as allocated and unlink it.
    method UnlinkBlock(prev: nat, curr: nat, ghost i: nat)
      requires i < |list| && curr == list[i] && curr in hdr && hdr[curr].next == NextIn(list, i)
               && freeList == Head(list)
      requires if i == 0 then prev == 0 else prev == list[i - 1] && prev in hdr && prev != 0 && prev != curr
      modifies this`hdr, this`list, this`live, this`freeList
      ensures S() == Taken(old(S()), i) && freeList == Head(list)
    {
      hdr := hdr[curr := hdr[curr].(free := false)];
      if prev != 0 {
        hdr := hdr[prev := hdr[prev].(next := hdr[curr].next)];
      } else {
        freeList := hdr[curr].next;
      }
      list := list[..i] + list[i + 1..];
      live := live + {curr};
    }

    // Found: split if worthwhile, then hand the block out.
    method TakeBlock(prev: nat, curr: nat, size: nat, ghost i: nat)
      requires Valid() && i < |list| && curr == list[i] && (i > 0 ==> prev == list[i - 1]) && (i == 0 ==> prev == 0)
      requires list[i] in hdr && hdr[list[i]].size >= AlignSize(size) >= size && AlignSize(size) >= 8
      modifies this`hdr, this`list, this`live, this`freeList
      ensures S() == Allocated(old(S()), i, size) && freeList == Head(list)
    {
      hide HeapOk, SplitAt, Taken, AlignSize, PagesHeld, LargeHeld;
      ghost var s := S();
      AllocReady(s, i, size);
      SplitBlock(curr, AlignSize(size), i);
      HeapList(S());
      SplitHead(s, i, AlignSize(size));
      DistinctList(S());
      UnlinkBlock(prev, curr, i);
    }

    method TakeFound(prev: nat, curr: nat, size: nat, ghost i: nat)
      requires Valid() && i < |list| && curr == list[i] && (i > 0 ==> prev == list[i - 1]) && (i == 0 ==> prev == 0)
      requires list[i] in hdr && hdr[list[i]].size >= AlignSize(size) >= size && AlignSize(size) >= 8
      modifies this`hdr, this`list, this`live, this`freeList
      requires i == FirstFit(hdr, list, size) && NoWrap(size) && size > 0
      ensures Valid() && LiveKept(old(S()), S(), 0) && Given(old(S()), S(), curr + HEADER, size)
      ensures Served(old(Pieces(hdr, list)), Pieces(hdr, list), size, curr + HEADER, hdr[curr].size)
    {
      hide HeapOk, Allocated, LiveKept, AlignSize, FreePages, LargeHeld, FirstFit, ServedFrom;
      AllocatedOk(S(), i, size);
      AllocatedPieces(S(), i, size);
      TakeBlock(prev, curr, size, i);
    }

    /** kmalloc's small path.  A request that does not wrap takes the first block that
        fits, after at most one growth; it fails only when the heap cannot grow.  One of
        the 23 sizes that wrap never succeeds, and consumes every page it can get. */
    method KmallocSmall(size: nat) returns (ptr: nat)
      requires Valid() && 0 < size < Heap.TWO_32 && IsSmall(size)
      modifies this, pmm, pmm.bitmap
      ensures Valid() && words == old(words) && large == old(large) && LiveKept(old(S()), S(), 0)
      ensures ptr != 0 ==> Given(old(S()), S(), ptr, size)
      ensures ptr != 0 ==> SmallServed(old(Pieces(hdr, list)), old(pages), Pieces(hdr, list), pages, size, ptr,
                                       hdr[ptr - HEADER].size)
      ensures ptr == 0 ==> live == old(live) && (|pages| == MAX_PAGES || pmm.Free() == {})
      ensures NoWrap(size) ==>
                && |pages| <= |old(pages)| + 1
                && (ptr == 0 <==> !Fits(old(Pieces(hdr, list)), size)
                                  && (|old(pages)| == 256 || old(pmm.Free()) == {}))
                && (ptr == 0 ==> S() == old(S()) && pmm.Free() == old(pmm.Free()))
      ensures !NoWrap(size) ==> ptr == 0
      ensures NoWrap(size) ==>
                var i := FirstFit(old(hdr), old(list), size);
                i < |old(list)| ==> ptr == old(list)[i] + HEADER && pages == old(pages) && pmm.Free() == old(pmm.Free())
      decreases MAX_PAGES - |pages|
    {
      hide HeapOk, Grown, Allocated, LiveKept, AlignSize, TotalSize, FreePages, FirstFit, LargeHeld;
      hide Pieces, PieceAt, Served, Fits, Lowest, IsSmall;
      ghost var s := S();
      var prev, curr;
      ghost var i;
      prev, curr, i := Search(size);
      HeapList(s);
      PiecesFit(hdr, list, i, size);
      if curr != 0 {
        BlockBound(s, i);
        SmallSizes(size);
        UnroundedTestIsEnough(hdr[curr].size, size);
        TakeFound(prev, curr, size, i);
        return curr + HEADER;
      }
      var grown := Grow();
      if grown {
        ghost var s1 := S();
        ghost var p := Lowest(old(pmm.Free())) * PAGE_SIZE;
        SmallSizes(size);
        GrownFits(s, p, size);
        assert [Piece(p, 4080)] + Pieces(s.hdr, s.list) == Pieces(hdr, list);
        FitsFirst(Piece(p, 4080), Pieces(s.hdr, s.list), size);
        ptr := KmallocSmall(size);
        if ptr != 0 {
          ServedGrown(Pieces(s.hdr, s.list), s.pages, p, Pieces(hdr, list), pages, size, ptr, hdr[ptr - HEADER].size);
        }
        LiveKeptTrans(s, s1, S(), 0);
      } else {
        ptr := 0;
      }
    }

    // curr, element i of the list, absorbs the next element.
    method MergeAt(curr: nat, next: nat, ghost i: nat)
      requires Mergeable(hdr, list, i) && curr == list[i] && next == list[i + 1] && next in hdr
      modifies this`hdr, this`list
      ensures S() == Merged(old(S()), i)
    {
      hdr := hdr[curr := hdr[curr].(size := hdr[curr].size + HEADER + hdr[next].size, next := hdr[next].next)];
      list := list[..i + 1] + list[i + 2..];
    }

    // merge_blocks: neighbours on the list that are adjacent in memory become one block.
    method MergeBlocks()
      requires Valid()
      modifies this`hdr, this`list
      ensures Valid() && LiveKept(old(S()), S(), 0) && Compact(S())
      ensures Pieces(hdr, list) == Coalesced(old(Pieces(hdr, list)))
    {
      hide HeapOk, LiveKept, LargeHeld, PagesHeld, Joining, Pieces, Coalesced, Compact;
      var curr := freeList;
      ghost var f := Pieces(hdr, list);
      JoiningEnds(f, f);
      ghost var i: nat := 0;
      LiveSame(S());
      HeapList(S());
      while curr != 0
        invariant Valid() && LiveKept(old(S()), S(), 0) && i <= |list|
        invariant curr == if i < |list| then list[i] else 0
        invariant Joining(f, Pieces(hdr, list), i)
        decreases |list| - i
      {
        ghost var s := S();
        HeapList(s);
        var next := hdr[curr].next;
        if next != 0 && hdr[curr].free && hdr[next].free && next == curr + HEADER + hdr[curr].size {
          MergeNext(curr, next, i, f);
          LiveKeptTrans(old(S()), s, S(), 0);
        } else {
          JoiningGoesOn(f, hdr, list, i);
          curr, i := next, i + 1;
        }
      }
      HeapList(S());
      assert i == |Pieces(hdr, list)|;
      JoiningEnds(f, Pieces(hdr, list));
      CoalescedCompact(S(), f);
    }

    method MergeNext(curr: nat, next: nat, ghost i: nat, ghost f: seq<Piece>)
      requires Valid() && Mergeable(hdr, list, i) && curr == list[i] && next == list[i + 1] && next in hdr
      requires Joining(f, Pieces(hdr, list), i)
      modifies this`hdr, this`list
      ensures Valid() && LiveKept(old(S()), S(), 0) && i < |list| == |old(list)| - 1 && list[i] == curr
      ensures Joining(f, Pieces(hdr, list), i)
    {
      hide HeapOk, Merged, LiveKept, FreePages, Mergeable, LargeHeld, PagesHeld, Pieces, Join, ListOk, Joining;
      ghost var s := S();
      HeapListOk(s);
      MergeOk(s, i);
      MergedHead(s, i);
      MergedPieces(s, i);
      JoiningTurn(f, Pieces(hdr, list), i);
      MergeAt(curr, next, i);
    }

    /** kfree of a small pointer: the block is free again, and what the list allows to be
        merged is merged. */
    method KfreeSmall(ptr: nat)
      requires Valid() && ptr >= HEADER && ptr - HEADER in live
      modifies this
      ensures Valid() && pages == old(pages) && live == old(live) - {ptr - HEADER} && words == old(words)
              && large == old(large)
      ensures LiveKept(old(S()), S(), ptr - HEADER) && Compact(S())
      ensures ptr - HEADER in old(hdr)
      ensures Pieces(hdr, list)
              == Coalesced([Piece(ptr - HEADER, old(hdr)[ptr - HEADER].size)] + old(Pieces(hdr, list)))
    {
      hide HeapOk, LiveKept, Compact, LargeHeld, PagesHeld, Pieces, ListOk, Coalesced;
      ghost var s := S();
      HeapListOk(s);
      var block := ptr - HEADER;
      LiveBlock(s, block);
      ReleaseOk(s, block);
      ReleasedPieces(s, block);
      if hdr[block].magic != MAGIC {
        assert false;
        return;
      }
      hdr := hdr[block := hdr[block].(free := true, next := freeList)];
      freeList := block;
      list := [block] + list;
      live := live - {block};
      ghost var s1 := S();
      assert s1 == Released(s, block);
      MergeBlocks();
      LiveKeptRelease(s, s1, S(), block);
    }

    /** kmalloc's large path: whole pages, lowest free ones first, with the byte count in
        front of the memory handed out.  When the pages run out, as many pages from the
        first one on are given back as had been taken, whoever they belong to. */
    method KmallocLarge(size: nat) returns (ptr: nat)
      requires Valid() && 0 < size < Heap.TWO_32 && !IsSmall(size)
      modifies this`words, this`large, pmm, pmm.bitmap
      ensures Intact() && pmm.max == old(pmm.max)
      ensures old(pmm.Free()) == {} ==> ptr == 0 && pmm.Free() == {} && words == old(words) && large == old(large)
      ensures old(pmm.Free()) != {} ==>
                var f, n := old(pmm.Free()), PagesNeeded(size);
                if n <= |f| then
                  && Valid() && ptr == Lowest(f) * PAGE + 4 && pmm.Free() == TakeLowest(f, if n == 0 then 1 else n)
                  && words == old(words)[ptr - 4 := n * PAGE] && large == old(large)[ptr - 4 := f - pmm.Free()]
                  && ptr - 4 !in old(large)
                else
                  && ptr == 0 && words == old(words) && large == old(large)
                  && pmm.Free() == Pmm.Below(PageRange(Lowest(f), |f|), pmm.max)
    {
      hide HeapOk, FreePages, PageRange, Below, TakeLowest, TotalSize, LargeOk, LargeAway;
      ghost var f := pmm.Free();
      TakeNone(f);
      var n := PagesNeeded(size);
      var first := pmm.AllocBlock();
      if first == 0 {
        return 0;
      }
      TakeOne(f, 0);
      var ok := MorePages(first, n, f);
      if !ok {
        return 0;
      }
      RecordLarge(first, n * PAGE, f);
      ptr := first + 4;
    }

    // The rest of the page loop, after the first of the free pages f has been taken.
    method MorePages(first: nat, n: nat, ghost f: set<nat>) returns (ok: bool)
      requires pmm.Valid() && f != {} && 0 !in f && first == Lowest(f) * PAGE && pmm.Free() == TakeLowest(f, 1)
      modifies pmm, pmm.bitmap
      ensures pmm.Valid() && pmm.max == old(pmm.max) && 0 !in pmm.Free() && (ok <==> n <= |f|)
      ensures pmm.Free() == if ok then TakeLowest(f, if n == 0 then 1 else n)
              else Pmm.Below(PageRange(Lowest(f), |f|), pmm.max)
      ensures ok ==> pmm.Free() <= f - {Lowest(f)}
    {
      hide FreePages, PageRange, Below, TakeLowest, Lowest;
      var i: nat := 1;
      while i < n
        invariant 1 <= i && (i <= n || (n == 0 && i == 1)) && i <= |f|
        invariant pmm.Valid() && pmm.max == old(pmm.max) && pmm.Free() == TakeLowest(f, i)
      {
        TakeCount(f, i);
        if TakeLowest(f, i) != {} {
          TakeOne(f, i);
        }
        var page := pmm.AllocBlock();
        if page == 0 {
          FreeRun(first, i);
          NoPageZero(Lowest(f), i, pmm.max);
          return false;
        }
        i := i + 1;
      }
      TakesLowest(f, i);
      return true;
    }

    // The count goes in front of the memory; the pages belong to it from now on.
    method RecordLarge(first: nat, bytes: nat, ghost f: set<nat>)
      requires PagesAway(pages, f) && LargeOk(pages, words, large) && LargeAway(large, f) && f != {} && 0 !in f
      requires PagesHeld() && HeapOk(S()) && |pages| <= MAX_PAGES && freeList == Head(list)
      requires pmm.Free() <= f - {Lowest(f)} && first == Lowest(f) * PAGE
      modifies this`words, this`large
      ensures Valid() && words == old(words)[first := bytes] && large == old(large)[first := f - pmm.Free()]
              && first !in old(large)
    {
      hide HeapOk, FreePages, LargeOk, LargeAway;
      LargeAdd(pages, words, large, f, pmm.Free(), first, bytes);
      words := words[first := bytes];
      large := large[first := f - pmm.Free()];
    }

    /** kmalloc: no memory for size 0, a block for small requests, whole pages otherwise.
        The heap stays valid unless a large request fails and gives back a page in use. */
    method Kmalloc(size: nat) returns (ptr: nat)
      requires Valid() && size < Heap.TWO_32
      modifies this, pmm, pmm.bitmap
      ensures Intact() && (ptr != 0 || size == 0 || IsSmall(size) || old(pmm.Free()) == {} ==> Valid())
      ensures Valid() <==> Unused(pages, large, pmm.Free())
      ensures size == 0 ==>
                ptr == 0 && S() == old(S()) && words == old(words) && large == old(large)
                && pmm.Free() == old(pmm.Free())
      ensures size > 0 && IsSmall(size) ==>
                && words == old(words) && large == old(large) && LiveKept(old(S()), S(), 0)
                && (NoWrap(size) ==>
                      (ptr == 0 <==> !Fits(old(Pieces(hdr, list)), size)
                                     && (|old(pages)| == 256 || old(pmm.Free()) == {})))
                && (if ptr == 0 then live == old(live)
                    else && Given(old(S()), S(), ptr, size)
                         && SmallServed(old(Pieces(hdr, list)), old(pages), Pieces(hdr, list), pages, size, ptr,
                                        hdr[ptr - HEADER].size))
      ensures size > 0 && !IsSmall(size) ==>
                S() == old(S()) && pmm.max == old(pmm.max) && LargeDone(old(pmm.Free()), pmm.Free(), pmm.max, ptr, size)
      ensures size > 0 && !IsSmall(size) ==>
                if ptr == 0 then words == old(words) && large == old(large)
                else && ptr >= 4 && ptr - 4 !in old(large) && words == old(words)[ptr - 4 := PagesNeeded(size) * PAGE]
                     && large == old(large)[ptr - 4 := old(pmm.Free()) - pmm.Free()]
    {
      hide HeapOk, FreePages, TakeLowest, TotalSize, LiveKept, FirstFit, LargeOk, LargeAway, PageRange, Below;
      if size == 0 {
        ValidIff();
        return 0;
      }
      if IsSmall(size) {
        ptr := KmallocSmall(size);
      } else {
        ptr := KmallocLarge(size);
      }
      ValidIff();
    }

    lemma PageOfOffset(first: nat, j: nat)
      requires first % PAGE == 0
      ensures (first + j * PAGE) / PAGE_SIZE == first / PAGE + j
    {
    }

    // Give back `count` pages from address `first` on.
    method FreeRun(first: nat, count: nat)
      requires pmm.Valid() && first % PAGE == 0
      modifies pmm, pmm.bitmap
      ensures pmm.Valid() && pmm.max == old(pmm.max)
      ensures pmm.Free() == old(pmm.Free()) + Pmm.Below(PageRange(first / PAGE, count), pmm.max)
    {
      hide FreePages, PageRange, Below;
      var j: nat := 0;
      RangeEmpty(first / PAGE, pmm.max);
      while j < count
        invariant j <= count && pmm.Valid() && pmm.max == old(pmm.max)
        invariant pmm.Free() == old(pmm.Free()) + Pmm.Below(PageRange(first / PAGE, j), pmm.max)
      {
        RangeStep(first / PAGE, j, pmm.max);
        PageOfOffset(first, j);
        pmm.FreeBlock(first + j * PAGE);
        j := j + 1;
      }
    }

    /** kfree: a pointer 4 bytes into a page is large, and as many pages as its count says
        go back; any other is small.  After a large kfree the heap is valid if and only if
        none of the pages given back is in use otherwise. */
    method Kfree(ptr: nat)
      requires Valid()
      requires ptr == 0 || (ptr >= HEADER && ptr - HEADER in live) || (ptr >= 4 && ptr - 4 in large)
      modifies this, pmm, pmm.bitmap
      ensures ptr >= HEADER && ptr - HEADER in old(live) ==>
                && Valid() && live == old(live) - {ptr - HEADER} && LiveKept(old(S()), S(), ptr - HEADER)
                && Compact(S()) && ptr - HEADER in old(hdr)
                && Pieces(hdr, list)
                   == Coalesced([Piece(ptr - HEADER, old(hdr)[ptr - HEADER].size)] + old(Pieces(hdr, list)))
                && pmm.Free() == old(pmm.Free()) && words == old(words) && large == old(large)
      ensures ptr >= 4 && ptr - 4 in old(large) ==>
                && Intact() && pmm.max == old(pmm.max) && S() == old(S()) && ptr - 4 in old(words)
                && large == old(large) - {ptr - 4}
                && var back := Pmm.Below(PageRange((ptr - 4) / PAGE, old(words)[ptr - 4] / PAGE), pmm.max);
                   && pmm.Free() == old(pmm.Free()) + back
                   && (Valid() <==> Unused(pages, large, back))
                   && (back <= old(large)[ptr - 4] ==> Valid())
      ensures ptr == 0 ==>
                Valid() && S() == old(S()) && pmm.Free() == old(pmm.Free()) && words == old(words)
                && large == old(large)
    {
      hide HeapOk, LiveKept, Compact, FreePages, PageRange, Below, LargeOk, LargeAway, Unused;
      if ptr == 0 {
        return;
      }
      if ptr >= HEADER && ptr - HEADER in live {
        LiveBlock(S(), ptr - HEADER);
        PointerKinds(ptr - HEADER, pages, words, large);
      }
      if ptr - 4 in large {
        HasCount(pages, words, large, ptr - 4);
      }
      var header := ptr - 4;
      if header % PAGE == 0 {
        KfreeLarge(header);
        return;
      }
      KfreeSmall(ptr);
    }

    method KfreeLarge(header: nat)
      requires Valid() && header in large
      modifies this`large, pmm, pmm.bitmap
      ensures Intact() && pmm.max == old(pmm.max) && header in words && large == old(large) - {header}
      ensures var back := Pmm.Below(PageRange(header / PAGE, words[header] / PAGE), pmm.max);
              && pmm.Free() == old(pmm.Free()) + back
              && (Valid() <==> Unused(pages, large, back))
              && (back <= old(large)[header] ==> Valid())
    {
      hide HeapOk, FreePages, PageRange, Below, LargeAway, LargeOk, Unused;
      ghost var f := pmm.Free();
      HasCount(pages, words, large, header);
      ghost var back := Pmm.Below(PageRange(header / PAGE, words[header] / PAGE), pmm.max);
      LargeDrop(pages, words, large, f, header);
      NoPageZero(header / PAGE, words[header] / PAGE, pmm.max);
      FreeRun(header, words[header] / PAGE);
      large := large - {header};
      UnusedUnion(pages, large, f, back);
      if back <= old(large)[header] {
        UnusedPart(pages, large, old(large)[header], back);
      }
      ValidIff();
    }
  }

  // ---------------------------------------------------------------- pages in use

  // No large allocation has a page of f.
  ghost predicate LargeAway(large: map<nat, set<nat>>, f: set<nat>) {
    forall a :: a in large ==> large[a] !! f
  }

  // No page of f is a page of the heap or of a large allocation.
  ghost predicate Unused(pages: seq<nat>, large: map<nat, set<nat>>, f: set<nat>) {
    (forall i :: 0 <= i < |pages| ==> pages[i] / PAGE !in f) && LargeAway(large, f)
  }

  /** Large allocations start on a page of their own, and share none with the heap or with
      each other. */
  ghost predicate LargeOk(pages: seq<nat>, words: map<nat, nat>, large: map<nat, set<nat>>) {
    && (forall a :: a in large ==> a in words && a % PAGE == 0 && a / PAGE in large[a] && 0 !in large[a])
    && (forall a, i :: a in large && 0 <= i < |pages| ==> pages[i] / PAGE !in large[a])
    && (forall a, b :: a in large && b in large && a != b ==> large[a] !! large[b])
  }

  ghost predicate PagesAway(pages: seq<nat>, f: set<nat>) {
    forall i :: 0 <= i < |pages| ==> pages[i] % PAGE == 0 && pages[i] / PAGE !in f
  }

  lemma UnusedUnion(pages: seq<nat>, large: map<nat, set<nat>>, f: set<nat>, g: set<nat>)
    requires Unused(pages, large, f)
    ensures Unused(pages, large, f + g) <==> Unused(pages, large, g)
  {
  }

  lemma UnusedPart(pages: seq<nat>, large: map<nat, set<nat>>, f: set<nat>, g: set<nat>)
    requires Unused(pages, large, f) && g <= f
    ensures Unused(pages, large, g)
  {
  }

  lemma HasCount(pages: seq<nat>, words: map<nat, nat>, large: map<nat, set<nat>>, header: nat)
    requires LargeOk(pages, words, large) && header in large
    ensures header in words && header % PAGE == 0 && header / PAGE > 0
  {
  }

  lemma LargeGrow(pages: seq<nat>, words: map<nat, nat>, large: map<nat, set<nat>>, f: set<nat>, k: nat)
    requires LargeOk(pages, words, large) && LargeAway(large, f) && k in f
    ensures LargeOk(pages + [k * PAGE], words, large) && LargeAway(large, f - {k})
  {
    var r := pages + [k * PAGE];
    assert k * PAGE / PAGE == k;
    forall a, i | a in large && 0 <= i < |r|
      ensures r[i] / PAGE !in large[a]
    {
      assert i < |pages| ==> r[i] == pages[i];
    }
  }

  lemma LargeAdd(pages: seq<nat>, words: map<nat, nat>, large: map<nat, set<nat>>, f: set<nat>, rest: set<nat>,
                 first: nat, bytes: nat)
    requires LargeOk(pages, words, large) && LargeAway(large, f) && PagesAway(pages, f) && f != {} && 0 !in f
    requires rest <= f - {Lowest(f)} && first == Lowest(f) * PAGE
    ensures first !in large
    ensures LargeOk(pages, words[first := bytes], large[first := f - rest]) && LargeAway(large[first := f - rest], rest)
  {
    hide Lowest;
    assert first % PAGE == 0 && first / PAGE == Lowest(f);
  }

  lemma LargeDrop(pages: seq<nat>, words: map<nat, nat>, large: map<nat, set<nat>>, f: set<nat>, header: nat)
    requires LargeOk(pages, words, large) && LargeAway(large, f) && header in large
    requires forall i :: 0 <= i < |pages| ==> pages[i] / PAGE !in f
    ensures LargeOk(pages, words, large - {header})
    ensures Unused(pages, large - {header}, f) && Unused(pages, large - {header}, large[header])
  {
  }

  lemma NoPageZero(first: nat, count: nat, max: nat)
    requires first > 0
    ensures 0 !in Pmm.Below(PageRange(first, count), max)
  {
    hide PageRange;
  }

  // What kmalloc's large path does with the free pages f.
  ghost predicate LargeDone(f: set<nat>, free: set<nat>, max: nat, ptr: nat, size: nat) {
    if f == {} then ptr == 0 && free == {}
    else if PagesNeeded(size) <= |f| then
      ptr == Lowest(f) * PAGE + 4 && free == TakeLowest(f, if PagesNeeded(size) == 0 then 1 else PagesNeeded(size))
    else ptr == 0 && free == Pmm.Below(PageRange(Lowest(f), |f|), max)
  }

  // pages_needed, in 32-bit arithmetic.
  function PagesNeeded(size: nat): nat {
    (TotalSize(size) + PAGE - 1) % Heap.TWO_32 / PAGE
  }

  // The set without its n lowest pages.
  ghost function TakeLowest(f: set<nat>, n: nat): (r: set<nat>)
    ensures r <= f
    decreases n
  {
    if n == 0 || f == {} then f else TakeLowest(f - {Lowest(f)}, n - 1)
  }

  lemma TakeNone(f: set<nat>)
    ensures TakeLowest(f, 0) == f
  {
  }

  // Taking one more.
  lemma {:induction false} TakeOne(f: set<nat>, n: nat)
    requires TakeLowest(f, n) != {}
    ensures TakeLowest(f, n + 1) == TakeLowest(f, n) - {Lowest(TakeLowest(f, n))}
    decreases n
  {
    if n > 0 && f != {} {
      TakeOne(f - {Lowest(f)}, n - 1);
    } else {
      assert TakeLowest(f - {Lowest(f)}, 0) == f - {Lowest(f)};
    }
  }

  lemma {:induction false} TakesLowest(f: set<nat>, n: nat)
    requires f != {} && n > 0
    ensures TakeLowest(f, n) <= f - {Lowest(f)}
  {
  }

  lemma {:induction false} TakeCount(f: set<nat>, n: nat)
    ensures |TakeLowest(f, n)| == if n <= |f| then |f| - n else 0
    decreases n
  {
    if n > 0 && f != {} {
      TakeCount(f - {Lowest(f)}, n - 1);
    }
  }

  lemma LowestIs(s: set<nat>, m: nat)
    requires m in s && forall x :: x in s ==> m <= x
    ensures Lowest(s) == m
  {
  }

  lemma RunStep(a: nat, n: nat)
    requires n > 0
    ensures PageRange(a, n) == {a} + PageRange(a + 1, n - 1)
  {
    hide PageRange;
  }

  // The n lowest pages are consecutive: taking them is removing the run.
  lemma {:induction false} TakeRun(f: set<nat>, n: nat)
    requires f != {} && PageRange(Lowest(f), n) <= f
    ensures TakeLowest(f, n) == f - PageRange(Lowest(f), n)
    decreases n
  {
    hide PageRange;
    assert PageRange(Lowest(f), 0) == {};
    if n > 0 {
      var a := Lowest(f);
      var g := f - {a};
      if n == 1 {
        assert PageRange(a, 1) == {a};
      } else {
        assert a + 1 in PageRange(a, n);
        LowestIs(g, a + 1);
        RunStep(a, n);
        TakeRun(g, n - 1);
      }
    }
  }

  /** Freeing a large allocation restores the free pages exactly, if and only if the
      lowest free pages it was given are consecutive (and it was given any by count). */
  lemma LargeRoundTrip(f: set<nat>, n: nat, max: nat)
    requires f != {} && n <= |f| && forall p :: p in f ==> p < max
    ensures TakeLowest(f, if n == 0 then 1 else n) + Pmm.Below(PageRange(Lowest(f), n), max) == f
            <==> n > 0 && PageRange(Lowest(f), n) <= f
  {
    hide PageRange;
    var range := PageRange(Lowest(f), n);
    var rest := TakeLowest(f, if n == 0 then 1 else n);
    TakeCount(f, if n == 0 then 1 else n);
    if n > 0 && range <= f {
      TakeRun(f, n);
      assert Pmm.Below(range, max) == range;
    }
    if rest + Pmm.Below(range, max) == f {
      UnionCount(rest, Pmm.Below(range, max));
      BelowCount(range, max);
    }
  }

  lemma UnionCount(a: set<nat>, b: set<nat>)
    ensures |a + b| <= |a| + |b|
  {
    assert a + b == a + (b - a);
    Pmm.SubsetCount(b - a, b);
  }

  // Cutting a run at max loses pages unless the run lies below max.
  lemma BelowCount(range: set<nat>, max: nat)
    ensures |Pmm.Below(range, max)| <= |range|
    ensures |Pmm.Below(range, max)| == |range| ==> Pmm.Below(range, max) == range
  {
    var b := Pmm.Below(range, max);
    Pmm.SubsetCount(b, range);
    if b != range {
      var x :| x in range && x !in b;
      Pmm.SubsetCount(b, range - {x});
    }
  }

  /** A failed large kmalloc leaves the free pages as they were if and only if they were
      consecutive: otherwise it gives back pages that it did not take. */
  lemma FailureRestores(f: set<nat>, max: nat)
    requires f != {} && forall p :: p in f ==> p < max
    ensures Pmm.Below(PageRange(Lowest(f), |f|), max) == f <==> PageRange(Lowest(f), |f|) == f
  {
    hide PageRange;
    var range := PageRange(Lowest(f), |f|);
    BelowCount(range, max);
    if range == f {
      assert Pmm.Below(range, max) == range;
    }
  }

  /** With pages 5 and 7 free and three wanted, page 6 is given back and page 7 is lost.  If
      page 6 is a page of the heap, the heap is not valid any more. */
  lemma FailureExample(max: nat, large: map<nat, set<nat>>)
    requires max > 7
    ensures var f: set<nat> := {5, 7};
            && Lowest(f) == 5 && Pmm.Below(PageRange(Lowest(f), |f|), max) == {5, 6}
            && !Unused([6 * PAGE], large, Pmm.Below(PageRange(Lowest(f), |f|), max))
  {
    var f: set<nat> := {5, 7};
    LowestIs(f, 5);
    assert |f| == 2;
    assert PageRange(5, 2) == {5, 6};
    assert Pmm.Below({5, 6}, max) == {5, 6};
    var pages := [6 * PAGE];
    assert pages[0] / PAGE == 6;
  }

  // The number of pages that `size` bytes from 4 bytes into a page on lie on.
  function PagesTouched(size: nat): nat {
    (size + 4 + PAGE - 1) / PAGE
  }

  // The page of byte x of a large allocation that starts on page `first`.
  function PageOfByte(first: nat, x: nat): nat {
    (first * PAGE + 4 + x) / PAGE
  }

  // The bytes lie on exactly the pages touched.
  lemma TouchedPages(first: nat, size: nat, taken: set<nat>)
    requires size > 0
    ensures (forall x: nat :: x < size ==> PageOfByte(first, x) in taken)
            <==> PageRange(first, PagesTouched(size)) <= taken
  {
    hide PageRange;
    forall x: nat | x < size
      ensures PageOfByte(first, x) in PageRange(first, PagesTouched(size))
    {
    }
    if forall x: nat :: x < size ==> PageOfByte(first, x) in taken {
      forall p | p in PageRange(first, PagesTouched(size))
        ensures p in taken
      {
        var x: nat := if p == first then 0 else (p - first) * PAGE - 4;
        assert x < size && PageOfByte(first, x) == p;
      }
    }
  }

  /** Every byte of a large allocation lies on a page that was taken for it, if and only if
      the page count did not wrap around and the lowest free pages are consecutive as far as
      the request reaches. */
  lemma LargeHoldsRequest(f: set<nat>, size: nat)
    requires f != {} && 0 < size < Heap.TWO_32 && !IsSmall(size) && PagesNeeded(size) <= |f|
    ensures var taken := f - TakeLowest(f, if PagesNeeded(size) == 0 then 1 else PagesNeeded(size));
            (forall x: nat :: x < size ==> PageOfByte(Lowest(f), x) in taken)
            <==> TotalSize(size) <= Heap.TWO_32 - PAGE && PageRange(Lowest(f), PagesTouched(size)) <= f
  {
    hide PageRange, TakeLowest, IsSmall, TotalSize, PageOfByte;
    var n, m := PagesNeeded(size), PagesTouched(size);
    NeededCovers(size);
    TouchedPages(Lowest(f), size, f - TakeLowest(f, if n == 0 then 1 else n));
    if TotalSize(size) <= Heap.TWO_32 - PAGE {
      if PageRange(Lowest(f), m) <= f {
        TakesRun(f, m, n);
      }
    } else {
      assert Lowest(f) + 1 in PageRange(Lowest(f), m);
      TakesOne(f);
    }
  }

  /** A large request takes as many pages as hold its bytes, rounded up to 8, and a header, and
      none more; none by count if the sum wraps. */
  lemma PagesNeededIsCeiling(size: nat)
    requires 0 < size < Heap.TWO_32 && !IsSmall(size)
    ensures var n, bytes := PagesNeeded(size), 16 + (size + 7) / 8 * 8;
            if bytes <= 0xFFFF_F000 then (n - 1) * 4096 < bytes <= n * 4096 else n == 0
  {
    SmallSizes(size);
    LargeSizes(size);
    var t := TotalSize(size);
    assert AlignSize(size) == (size + 7) / 8 * 8 by { AlignIs(size); }
    hide TotalSize, AlignSize, IsSmall;
    if t <= Heap.TWO_32 - PAGE {
      assert (t + PAGE - 1) % Heap.TWO_32 == t + PAGE - 1;
    } else {
      assert (t + PAGE - 1) % Heap.TWO_32 == t + PAGE - 1 - Heap.TWO_32;
    }
  }

  // The needed pages are enough for the bytes touched, unless the count wraps to none.
  lemma NeededCovers(size: nat)
    requires 0 < size < Heap.TWO_32 && !IsSmall(size)
    ensures TotalSize(size) <= Heap.TWO_32 - PAGE ==> 0 < PagesTouched(size) <= PagesNeeded(size)
    ensures TotalSize(size) > Heap.TWO_32 - PAGE ==> PagesNeeded(size) == 0 && PagesTouched(size) > 1
  {
    SmallSizes(size);
    LargeSizes(size);
    var t := TotalSize(size);
    if t <= Heap.TWO_32 - PAGE {
      assert (t + PAGE - 1) % Heap.TWO_32 == t + PAGE - 1;
    } else {
      assert (t + PAGE - 1) % Heap.TWO_32 == t + PAGE - 1 - Heap.TWO_32;
    }
  }

  // The m consecutive lowest pages are among the n lowest.
  lemma {:induction false} TakesRun(f: set<nat>, m: nat, n: nat)
    requires f != {} && 0 < m <= n <= |f| && PageRange(Lowest(f), m) <= f
    ensures PageRange(Lowest(f), m) <= f - TakeLowest(f, n)
  {
    hide PageRange, TakeLowest;
    TakeRun(f, m);
    TakeMore(f, m, n);
  }

  lemma {:induction false} TakeMore(f: set<nat>, m: nat, n: nat)
    requires m <= n
    ensures TakeLowest(f, n) <= TakeLowest(f, m)
    decreases n
  {
    if m > 0 && f != {} {
      TakeMore(f - {Lowest(f)}, m - 1, n - 1);
    }
  }

  lemma TakesOne(f: set<nat>)
    requires f != {}
    ensures f - TakeLowest(f, 1) == {Lowest(f)}
  {
    TakeNone(f - {Lowest(f)});
  }

  /** With pages 5 and 7 free, 5000 bytes are given pages 5 and 7, and reach into page 6. */
  lemma LargeMissesExample()
    ensures var f: set<nat> := {5, 7};
            && !IsSmall(5000) && PagesNeeded(5000) == 2 == |f| && TotalSize(5000) <= Heap.TWO_32 - PAGE
            && PageOfByte(Lowest(f), 4999) == 6 && 6 !in f - TakeLowest(f, 2)
  {
    var f: set<nat> := {5, 7};
    LowestIs(f, 5);
    assert AlignSize(5000) == 5000 && TotalSize(5000) == 5016;
  }

  /** Freeing what was taken for 5000 bytes from pages 5 and 7 leaves pages 5 and 6 free. */
  lemma LargeRoundTripExample(max: nat)
    requires max > 7
    ensures var f: set<nat> := {5, 7};
            TakeLowest(f, 2) + Pmm.Below(PageRange(Lowest(f), 2), max) == {5, 6} != f
  {
    var f: set<nat> := {5, 7};
    LowestIs(f, 5);
    TakeCount(f, 2);
    assert TakeLowest(f, 2) == {};
    assert PageRange(5, 2) == {5, 6};
    assert Pmm.Below({5, 6}, max) == {5, 6};
    assert 6 !in f;
  }

  lemma LargeSizes(size: nat)
    requires 0 < size < Heap.TWO_32 && NoWrap(size)
    ensures size + HEADER <= TotalSize(size) == HEADER + AlignSize(size) < Heap.TWO_32
  {
    assert (size + 7) % Heap.TWO_32 == size + 7;
  }

  /** Live allocations lie inside the heap's pages and never overlap. */
  lemma LiveApart(s: State, a: nat, b: nat, x: nat)
    requires HeapOk(s) && a in s.live && b in s.live && a != b
    requires a <= x < a + HEADER + s.hdr[a].size
    ensures !(b <= x < b + HEADER + s.hdr[b].size) && InPages(s.pages, x)
  {
    hide Total;
    assert a in Blocks(s) && b in Blocks(s);
    var ext := Extents(s);
    assert ext[a] == a + HEADER + s.hdr[a].size && ext[b] == b + HEADER + s.hdr[b].size;
    assert InTile(ext, a, x);
    assert Covered(ext, x);
    assert a < b ==> ext[a] <= b;
    assert b < a ==> ext[b] <= a;
  }

  /** Small allocations share no byte with a large one's pages. */
  lemma SmallLargeApart(s: State, words: map<nat, nat>, large: map<nat, set<nat>>, b: nat, x: nat, a: nat)
    requires HeapOk(s) && LargeOk(s.pages, words, large) && PagesAway(s.pages, {})
    requires b in s.live && b <= x < b + HEADER + s.hdr[b].size && a in large
    ensures x / PAGE !in large[a]
  {
    hide Total;
    assert b in Blocks(s);
    var ext := Extents(s);
    assert InTile(ext, b, x);
    assert Covered(ext, x) && InPages(s.pages, x);
    var i :| 0 <= i < |s.pages| && s.pages[i] <= x < s.pages[i] + PAGE;
    assert x / PAGE == s.pages[i] / PAGE;
  }

  // The block behind ptr was free, is live now, and holds `size` bytes at an 8-byte boundary.
  ghost predicate Given(s: State, r: State, ptr: nat, size: nat) {
    && ptr >= HEADER && ptr % 8 == 0
    && ptr - HEADER !in s.live && r.live == s.live + {ptr - HEADER}
    && ptr - HEADER in r.hdr && r.hdr[ptr - HEADER].size >= size
  }

  /** After growth the new page heads the list and fits every small request. */
  lemma GrownFits(s: State, p: nat, size: nat)
    ensures size <= PAGE - HEADER ==> FirstFit(Grown(s, p).hdr, Grown(s, p).list, size) == 0 < |Grown(s, p).list|
    ensures Grown(s, p).live == s.live && |Grown(s, p).pages| == |s.pages| + 1
  {
  }

  lemma LiveKeptTrans(s: State, r: State, q: State, b: nat)
    requires LiveKept(s, r, b) && LiveKept(r, q, b) && r.live == s.live
    ensures LiveKept(s, q, b)
  {
  }

  lemma LiveKeptRelease(s: State, r: State, q: State, b: nat)
    requires LiveKept(s, r, b) && LiveKept(r, q, 0) && r.live == s.live - {b} && 0 !in s.live
    ensures LiveKept(s, q, b)
  {
  }

  lemma LiveBlock(s: State, b: nat)
    requires HeapOk(s) && b in s.live
    ensures b in s.hdr && s.hdr[b].magic == MAGIC && b % 8 == 0 && 0 !in s.live
  {
    assert b in Blocks(s);
  }

  // Merging at i leaves the head of the list and its element i alone.
  lemma MergedHead(s: State, i: nat)
    requires Mergeable(s.hdr, s.list, i) && s.list[i + 1] in s.hdr
    ensures i + 1 < |s.list|
    ensures var r := Merged(s, i);
            Head(r.list) == Head(s.list) && i < |r.list| == |s.list| - 1 && r.list[i] == s.list[i]
  {
  }

  // Joined pieces are a compact list.
  lemma CoalescedCompact(s: State, f: seq<Piece>)
    requires Pieces(s.hdr, s.list) == Coalesced(f)
    ensures Compact(s)
  {
    hide Coalesced;
    CoalescedLoose(f);
    forall i: nat
      ensures !Mergeable(s.hdr, s.list, i)
    {
      if i + 1 < |s.list| && s.list[i] in s.hdr {
        PiecesAdjacent(s.hdr, s.list, i);
      }
    }
  }

  // Splitting keeps the list up to the split block.
  lemma SplitHead(s: State, i: nat, size: nat)
    requires i < |s.list| && s.list[i] in s.hdr
    ensures s.hdr[s.list[i]].size >= size + MIN_BLOCK ==>
              var r := SplitAt(s, i, size);
              Head(r.list) == Head(s.list) && i < |r.list| && r.list[i] == s.list[i]
              && (i > 0 ==> r.list[i - 1] == s.list[i - 1])
  {
  }

  lemma DistinctList(s: State)
    requires HeapOk(s)
    ensures forall i, j :: 0 <= i < j < |s.list| ==> s.list[i] != s.list[j]
  {
  }

  lemma EmptyOk()
    ensures HeapOk(State([], map[], [], {}))
  {
    var s := State([], map[], [], {});
    assert Blocks(s) == {};
    assert Extents(s) == map[];
  }

  lemma LiveSame(s: State)
    requires HeapOk(s)
    ensures LiveKept(s, s, 0)
  {
  }

  lemma HeldGrow(pages: seq<nat>, free: set<nat>, k: nat)
    requires forall i :: 0 <= i < |pages| ==> pages[i] % PAGE == 0 && pages[i] / PAGE !in free
    ensures var r := pages + [k * PAGE];
            forall i :: 0 <= i < |r| ==> r[i] % PAGE == 0 && r[i] / PAGE !in free - {k}
  {
    assert k * PAGE % PAGE == 0 && k * PAGE / PAGE == k;
  }

  lemma FreshPage(pages: seq<nat>, page: nat, k: nat)
    requires page == k * PAGE && forall i :: 0 <= i < |pages| ==> pages[i] % PAGE == 0 && pages[i] / PAGE != k
    ensures NewPage(pages, page)
  {
    forall i | 0 <= i < |pages|
      ensures pages[i] + PAGE <= page || page + PAGE <= pages[i]
    {
      MultiplesApart(pages[i], page, k);
    }
  }

  lemma PageAligned(k: nat)
    ensures k * PAGE % 8 == 0
  {
    assert k * PAGE == 8 * (512 * k);
  }

  lemma MultiplesApart(a: nat, b: nat, k: nat)
    requires a % PAGE == 0 && a / PAGE != k && b == k * PAGE
    ensures a + PAGE <= b || b + PAGE <= a
  {
    assert a == a / PAGE * PAGE;
  }
}
