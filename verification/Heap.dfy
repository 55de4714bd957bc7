/**
 The kernel heap of mm/heap.c: blocks with 16-byte headers in memory, a linked free
 list, splitting, merging and growth.  The invariant: free and live blocks tile the
 heap's pages exactly, and all addresses and sizes are multiples of 8.
 */
module Heap {
  import opened HeapTiles

  const HEADER: nat := 16
  const MIN_BLOCK: nat := 24
  const MAGIC: nat := 0xDEAD_BEEF
  const MAX_PAGES: nat := 256
  const TWO_32: nat := 0x1_0000_0000

  // heap_block_t; a `next` of 0 is NULL.
  datatype Block = Block(size: nat, next: nat, free: bool, magic: nat)

  /** Headers in memory, the heap's pages, the free list as the sequence of its blocks,
      and the blocks handed out. */
  datatype State = State(pages: seq<nat>, hdr: map<nat, Block>, list: seq<nat>, live: set<nat>)

  function Head(list: seq<nat>): nat {
    if list == [] then 0 else list[0]
  }

  // What follows element i of the list.
  function NextIn(list: seq<nat>, i: nat): nat
    requires i < |list|
  {
    if i + 1 < |list| then list[i + 1] else 0
  }

  ghost predicate IsFreeBlock(s: State, i: nat)
    requires i < |s.list|
  {
    var b := s.list[i];
    b != 0 && b in s.hdr && b !in s.live && s.hdr[b].free && s.hdr[b].magic == MAGIC
    && s.hdr[b].next == NextIn(s.list, i)
  }

  ghost predicate ListOk(s: State) {
    && (forall i, j :: 0 <= i < j < |s.list| ==> s.list[i] != s.list[j])
    && (forall i :: 0 <= i < |s.list| ==> IsFreeBlock(s, i))
  }

  ghost predicate LiveOk(s: State) {
    forall b :: b in s.live ==> b != 0 && b in s.hdr && !s.hdr[b].free && s.hdr[b].magic == MAGIC
  }

  ghost function Blocks(s: State): set<nat> {
    (set i | 0 <= i < |s.list| :: s.list[i]) + s.live
  }

  ghost predicate Sized(s: State) {
    forall b :: b in Blocks(s) ==> b in s.hdr && b % 8 == 0 && s.hdr[b].size % 8 == 0 && s.hdr[b].size >= 8
  }

  // Start and end of every block, header included.
  ghost function Extents(s: State): map<nat, nat> {
    map b | b in Blocks(s) && b in s.hdr :: b + HEADER + s.hdr[b].size
  }

  ghost predicate HeapOk(s: State) {
    && ListOk(s) && LiveOk(s) && Sized(s)
    && Tiles(Extents(s), s.pages)
    && Total(Extents(s)) == PAGE * |s.pages|
  }

  // The headers of live blocks are as they were, save for the block b.
  ghost predicate LiveKept(s: State, r: State, b: nat) {
    forall l :: l in s.live && l != b ==> l in s.hdr && l in r.hdr && r.hdr[l] == s.hdr[l]
  }

  // ---------------------------------------------------------------- changes

  // heap_grow: one block covers the new page and heads the list.
  ghost function Grown(s: State, p: nat): State {
    State(s.pages + [p], s.hdr[p := Block(PAGE - HEADER, Head(s.list), true, MAGIC)], [p] + s.list, s.live)
  }

  lemma GrowOk(s: State, p: nat)
    requires HeapOk(s) && p != 0 && p % 8 == 0 && NewPage(s.pages, p)
    ensures HeapOk(Grown(s, p)) && LiveKept(s, Grown(s, p), 0)
  {
    hide Tiles, Total;
    var r := Grown(s, p);
    assert p !in Blocks(s) by { GrownTiles(Extents(s), s.pages, p); }
    assert r.list[0] == p;
    assert forall i :: 0 < i < |r.list| ==> r.list[i] == s.list[i - 1];
    forall i | 0 <= i < |r.list|
      ensures IsFreeBlock(r, i)
    {
      if i > 0 {
        assert IsFreeBlock(s, i - 1);
      }
    }
    GrowBlocks(s, p);
    assert Extents(r) == Extents(s)[p := p + PAGE];
    GrownTiles(Extents(s), s.pages, p);
  }

  lemma GrowBlocks(s: State, p: nat)
    ensures Blocks(Grown(s, p)) == Blocks(s) + {p}
  {
    var r := Grown(s, p);
    assert r.list[0] == p;
    forall b | b in Blocks(s)
      ensures b in Blocks(r)
    {
      if b !in s.live {
        var i :| 0 <= i < |s.list| && s.list[i] == b;
        assert r.list[i + 1] == b;
      }
    }
  }

  // split_block on element i of the list, cut behind `size` bytes of payload.
  ghost function SplitAt(s: State, i: nat, size: nat): State
    requires i < |s.list| && s.list[i] in s.hdr && s.hdr[s.list[i]].size >= size + MIN_BLOCK
  {
    var b := s.list[i];
    var h := s.hdr[b];
    var n := b + HEADER + size;
    s.(hdr := s.hdr[n := Block(h.size - size - HEADER, h.next, true, MAGIC)][b := h.(size := size, next := n)],
       list := s.list[..i + 1] + [n] + s.list[i + 1..])
  }

  lemma SplitOk(s: State, i: nat, size: nat)
    requires HeapOk(s) && i < |s.list| && s.hdr[s.list[i]].size >= size + MIN_BLOCK && size % 8 == 0 && size >= 8
    ensures HeapOk(SplitAt(s, i, size)) && LiveKept(s, SplitAt(s, i, size), 0)
  {
    hide Tiles, Total, IsFreeBlock, Blocks;
    var b := s.list[i];
    var n := b + HEADER + size;
    ListInBlocks(s, i);
    CutTiles(Extents(s), s.pages, b, n);
    SplitList(s, i, size);
    SplitExtents(s, i, size);
    SplitLive(s, i, size);
  }

  // A list element is a block, and no live one.
  lemma ListInBlocks(s: State, i: nat)
    requires ListOk(s) && i < |s.list|
    ensures s.list[i] in Blocks(s) && s.list[i] in s.hdr && s.list[i] !in s.live && s.list[i] != 0
  {
    assert IsFreeBlock(s, i);
  }

  lemma SplitExtents(s: State, i: nat, size: nat)
    requires Sized(s) && i < |s.list| && s.list[i] in s.hdr && s.hdr[s.list[i]].size >= size + MIN_BLOCK
             && size % 8 == 0 && size >= 8
    requires s.list[i] in Blocks(s) && s.list[i] + HEADER + size !in Blocks(s)
    ensures Sized(SplitAt(s, i, size))
    ensures Extents(SplitAt(s, i, size)) == Cut(Extents(s), s.list[i], s.list[i] + HEADER + size)
  {
    hide Blocks;
    SplitBlocks(s, i, size);
  }

  lemma SplitLive(s: State, i: nat, size: nat)
    requires LiveOk(s) && i < |s.list| && s.list[i] in s.hdr && s.hdr[s.list[i]].size >= size + MIN_BLOCK
    requires s.list[i] !in s.live && s.list[i] + HEADER + size !in Blocks(s)
    ensures LiveKept(s, SplitAt(s, i, size), 0)
  {
  }

  lemma SplitList(s: State, i: nat, size: nat)
    requires ListOk(s) && LiveOk(s) && i < |s.list| && s.list[i] in s.hdr && s.hdr[s.list[i]].size >= size + MIN_BLOCK
    requires s.list[i] + HEADER + size !in Blocks(s)
    ensures ListOk(SplitAt(s, i, size)) && LiveOk(SplitAt(s, i, size))
  {
    var r := SplitAt(s, i, size);
    var n := s.list[i] + HEADER + size;
    assert forall j :: 0 <= j <= i ==> r.list[j] == s.list[j];
    assert r.list[i + 1] == n;
    assert forall j :: i + 1 < j < |r.list| ==> r.list[j] == s.list[j - 1];
    forall j | 0 <= j < |s.list|
      ensures s.list[j] in Blocks(s)
    {
    }
    forall j | 0 <= j < |r.list|
      ensures IsFreeBlock(r, j)
    {
      assert IsFreeBlock(s, if j <= i then j else j - 1);
    }
  }

  lemma SplitBlocks(s: State, i: nat, size: nat)
    requires i < |s.list| && s.list[i] in s.hdr && s.hdr[s.list[i]].size >= size + MIN_BLOCK
    ensures Blocks(SplitAt(s, i, size)) == Blocks(s) + {s.list[i] + HEADER + size}
  {
    var r := SplitAt(s, i, size);
    assert r.list[i + 1] == s.list[i] + HEADER + size;
    forall b | b in Blocks(s)
      ensures b in Blocks(r)
    {
      if b !in s.live {
        var j :| 0 <= j < |s.list| && s.list[j] == b;
        assert r.list[if j <= i then j else j + 1] == b;
      }
    }
    forall b | b in Blocks(r)
      ensures b in Blocks(s) + {s.list[i] + HEADER + size}
    {
      if b !in s.live {
        var j :| 0 <= j < |r.list| && r.list[j] == b;
        if j <= i {
          assert s.list[j] == b;
        } else if j > i + 1 {
          assert s.list[j - 1] == b;
        }
      }
    }
  }

  // kmalloc unlinks element i of the list and hands it out.
  ghost function Taken(s: State, i: nat): State
    requires i < |s.list| && s.list[i] in s.hdr && (i > 0 ==> s.list[i - 1] in s.hdr)
  {
    var b := s.list[i];
    var h := s.hdr[b];
    var hdr := s.hdr[b := h.(free := false)];
    s.(hdr := if i == 0 then hdr else hdr[s.list[i - 1] := s.hdr[s.list[i - 1]].(next := h.next)],
       list := s.list[..i] + s.list[i + 1..], live := s.live + {b})
  }

  lemma TakeOk(s: State, i: nat)
    requires HeapOk(s) && i < |s.list|
    ensures s.list[i] in s.hdr && (i > 0 ==> s.list[i - 1] in s.hdr)
    ensures HeapOk(Taken(s, i)) && LiveKept(s, Taken(s, i), 0) && Extents(Taken(s, i)) == Extents(s)
  {
    hide Tiles, Total, Blocks, IsFreeBlock;
    ListInBlocks(s, i);
    if i > 0 {
      ListInBlocks(s, i - 1);
    }
    var r := Taken(s, i);
    TakeList(s, i);
    TakeBlocks(s, i);
    assert Extents(r) == Extents(s);
  }

  lemma TakeList(s: State, i: nat)
    requires ListOk(s) && LiveOk(s) && i < |s.list| && s.list[i] in s.hdr && (i > 0 ==> s.list[i - 1] in s.hdr)
    ensures ListOk(Taken(s, i)) && LiveOk(Taken(s, i))
  {
    var r := Taken(s, i);
    assert forall j :: 0 <= j < i ==> r.list[j] == s.list[j];
    assert forall j :: i <= j < |r.list| ==> r.list[j] == s.list[j + 1];
    assert IsFreeBlock(s, i);
    forall j | 0 <= j < |r.list|
      ensures IsFreeBlock(r, j)
    {
      assert IsFreeBlock(s, if j < i then j else j + 1);
    }
    if i > 0 {
      assert IsFreeBlock(s, i - 1);
    }
  }

  lemma TakeBlocks(s: State, i: nat)
    requires i < |s.list| && s.list[i] in s.hdr && (i > 0 ==> s.list[i - 1] in s.hdr)
    ensures Blocks(Taken(s, i)) == Blocks(s)
  {
    var r := Taken(s, i);
    forall b | b in Blocks(s)
      ensures b in Blocks(r)
    {
      if b !in r.live {
        var j :| 0 <= j < |s.list| && s.list[j] == b;
        assert r.list[if j < i then j else j - 1] == b;
      }
    }
    forall b | b in Blocks(r)
      ensures b in Blocks(s)
    {
      if b !in s.live {
        if b != s.list[i] {
          var j :| 0 <= j < |r.list| && r.list[j] == b;
          assert s.list[if j < i then j else j + 1] == b;
        }
      }
    }
  }

  // kfree puts block b at the head of the list.
  ghost function Released(s: State, b: nat): State
    requires b in s.hdr
  {
    s.(hdr := s.hdr[b := s.hdr[b].(free := true, next := Head(s.list))], list := [b] + s.list, live := s.live - {b})
  }

  lemma ReleaseOk(s: State, b: nat)
    requires HeapOk(s) && b in s.live
    ensures b in s.hdr && HeapOk(Released(s, b)) && LiveKept(s, Released(s, b), b)
            && Extents(Released(s, b)) == Extents(s)
  {
    hide Tiles, Total, Blocks, IsFreeBlock;
    var r := Released(s, b);
    ReleaseList(s, b);
    ReleaseBlocks(s, b);
    assert Extents(r) == Extents(s);
  }

  lemma ReleaseList(s: State, b: nat)
    requires ListOk(s) && LiveOk(s) && b in s.live
    ensures ListOk(Released(s, b)) && LiveOk(Released(s, b))
  {
    var r := Released(s, b);
    assert r.list[0] == b;
    assert forall j :: 0 < j < |r.list| ==> r.list[j] == s.list[j - 1];
    forall j | 0 <= j < |s.list|
      ensures s.list[j] != b
    {
      assert IsFreeBlock(s, j);
    }
    forall j | 0 <= j < |r.list|
      ensures IsFreeBlock(r, j)
    {
      if j > 0 {
        assert IsFreeBlock(s, j - 1);
      }
    }
  }

  lemma ReleaseBlocks(s: State, b: nat)
    requires b in s.hdr && b in s.live
    ensures Blocks(Released(s, b)) == Blocks(s)
  {
    var r := Released(s, b);
    assert r.list[0] == b;
    forall c | c in Blocks(s)
      ensures c in Blocks(r)
    {
      if c !in s.live {
        var j :| 0 <= j < |s.list| && s.list[j] == c;
        assert r.list[j + 1] == c;
      }
    }
  }

  // Element i + 1 of the list starts where element i ends.
  predicate Mergeable(hdr: map<nat, Block>, list: seq<nat>, i: nat) {
    i + 1 < |list| && list[i] in hdr && list[i + 1] == list[i] + HEADER + hdr[list[i]].size
  }

  // merge_blocks: element i absorbs element i + 1.
  ghost function Merged(s: State, i: nat): State
    requires Mergeable(s.hdr, s.list, i) && s.list[i + 1] in s.hdr
  {
    var a, m := s.list[i], s.list[i + 1];
    s.(hdr := s.hdr[a := s.hdr[a].(size := s.hdr[a].size + HEADER + s.hdr[m].size, next := s.hdr[m].next)],
       list := s.list[..i + 1] + s.list[i + 2..])
  }

  lemma MergeOk(s: State, i: nat)
    requires HeapOk(s) && Mergeable(s.hdr, s.list, i)
    ensures s.list[i + 1] in s.hdr && HeapOk(Merged(s, i)) && LiveKept(s, Merged(s, i), 0)
  {
    hide Tiles, Total, IsFreeBlock, Blocks;
    ListInBlocks(s, i);
    ListInBlocks(s, i + 1);
    MergeList(s, i);
    MergeExtents(s, i);
    JoinedTiles(Extents(s), s.pages, s.list[i], s.list[i + 1]);
  }

  lemma MergeExtents(s: State, i: nat)
    requires ListOk(s) && Sized(s) && Mergeable(s.hdr, s.list, i) && s.list[i + 1] in s.hdr
    requires s.list[i] in Blocks(s) && s.list[i + 1] in Blocks(s)
    ensures Sized(Merged(s, i))
    ensures Extents(Merged(s, i)) == Joined(Extents(s), s.list[i], s.list[i + 1])
  {
    hide Blocks;
    MergeBlocks(s, i);
  }

  lemma MergeList(s: State, i: nat)
    requires ListOk(s) && LiveOk(s) && Mergeable(s.hdr, s.list, i) && s.list[i + 1] in s.hdr
    ensures ListOk(Merged(s, i)) && LiveOk(Merged(s, i))
  {
    var r := Merged(s, i);
    assert forall j :: 0 <= j <= i ==> r.list[j] == s.list[j];
    assert forall j :: i < j < |r.list| ==> r.list[j] == s.list[j + 1];
    assert IsFreeBlock(s, i) && IsFreeBlock(s, i + 1);
    forall j | 0 <= j < |r.list|
      ensures IsFreeBlock(r, j)
    {
      assert IsFreeBlock(s, if j <= i then j else j + 1);
    }
  }

  lemma MergeBlocks(s: State, i: nat)
    requires ListOk(s) && Mergeable(s.hdr, s.list, i) && s.list[i + 1] in s.hdr
    ensures Blocks(Merged(s, i)) == Blocks(s) - {s.list[i + 1]}
  {
    var r := Merged(s, i);
    assert IsFreeBlock(s, i + 1);
    forall b | b in Blocks(s) && b != s.list[i + 1]
      ensures b in Blocks(r)
    {
      if b !in s.live {
        var j :| 0 <= j < |s.list| && s.list[j] == b;
        assert r.list[if j <= i then j else j - 1] == b;
      }
    }
    forall b | b in Blocks(r)
      ensures b in Blocks(s) && b != s.list[i + 1]
    {
      if b !in s.live {
        var j :| 0 <= j < |r.list| && r.list[j] == b;
        assert s.list[if j <= i then j else j + 1] == b;
      }
    }
  }
}
