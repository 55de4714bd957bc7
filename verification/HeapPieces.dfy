/**
 The free list of mm/heap.c as a plain sequence of pieces of memory: what a small kmalloc
 takes from it, what kfree gives back to it, and when the one undoes the other.
 */
module HeapPieces {
  import opened HeapTiles
  import opened Heap

  // A free block: where its header starts and how many bytes follow the header.
  datatype Piece = Piece(start: nat, size: nat) {
    function End(): nat {
      start + 16 + size
    }
  }

  function PieceAt(hdr: map<nat, Block>, b: nat): Piece {
    Piece(b, if b in hdr then hdr[b].size else 0)
  }

  // The free blocks in the order of the list.
  function Pieces(hdr: map<nat, Block>, list: seq<nat>): (r: seq<Piece>)
    ensures |r| == |list|
  {
    seq(|list|, i requires 0 <= i < |list| => PieceAt(hdr, list[i]))
  }

  /** The request is served from piece i of f, the first that holds it: piece i is handed
      out whole if less than 24 bytes beyond the rounded request would remain, and otherwise
      it is cut behind the rounded request, and the rest stays free in its place. */
  ghost predicate ServedFrom(f: seq<Piece>, g: seq<Piece>, i: nat, size: nat, got: nat) {
    var need := (size + 7) / 8 * 8;
    && i < |f| && f[i].size >= size && (forall j :: 0 <= j < i ==> f[j].size < size)
    && if f[i].size < need + 24 then got == f[i].size && g == f[..i] + f[i + 1..]
       else got == need && g == f[..i] + [Piece(f[i].start + 16 + need, f[i].size - need - 16)] + f[i + 1..]
  }

  ghost predicate Served(f: seq<Piece>, g: seq<Piece>, size: nat, ptr: nat, got: nat) {
    exists i: nat :: ServedFrom(f, g, i, size, got) && ptr == f[i].start + 16
  }

  predicate Fits(f: seq<Piece>, size: nat) {
    exists i :: 0 <= i < |f| && f[i].size >= size
  }

  /** A small request in a heap of free pieces f and these pages: served from f if some piece
      fits, and otherwise from f with one new page in front of it. */
  ghost predicate SmallServed(f: seq<Piece>, pages: seq<nat>, g: seq<Piece>, newPages: seq<nat>,
                              size: nat, ptr: nat, got: nat) {
    if Fits(f, size) then newPages == pages && Served(f, g, size, ptr, got)
    else && |newPages| == |pages| + 1 && newPages[..|pages|] == pages
         && Served([Piece(newPages[|pages|], 4080)] + f, g, size, ptr, got)
  }

  lemma FitsFirst(a: Piece, f: seq<Piece>, size: nat)
    ensures a.size >= size ==> Fits([a] + f, size)
  {
    assert ([a] + f)[0] == a;
  }

  // Served after growth: from the new page.
  lemma ServedGrown(f: seq<Piece>, pages: seq<nat>, p: nat, g: seq<Piece>, newPages: seq<nat>,
                    size: nat, ptr: nat, got: nat)
    requires !Fits(f, size) && size <= 4080
    requires SmallServed([Piece(p, 4080)] + f, pages + [p], g, newPages, size, ptr, got)
    ensures SmallServed(f, pages, g, newPages, size, ptr, got)
  {
    hide Served;
    assert ([Piece(p, 4080)] + f)[0].size >= size;
    assert (pages + [p])[|pages|] == p;
  }

  /** What is handed out holds the request and less than 24 bytes more than the rounded
      request; the other free pieces stay; and if the piece found was larger, a free piece
      lies between the end of what is handed out and the end of the piece found. */
  lemma ServedMeaning(f: seq<Piece>, g: seq<Piece>, i: nat, size: nat, got: nat)
    requires ServedFrom(f, g, i, size, got)
    ensures size <= got < (size + 7) / 8 * 8 + 24
    ensures forall j :: 0 <= j < |f| && j != i ==> f[j] in g
    ensures got < f[i].size ==>
              exists x :: x in g && x.start == f[i].start + 16 + got && x.End() == f[i].End() && x.size >= 8
    ensures got == f[i].size ==> |g| == |f| - 1
  {
    var need := (size + 7) / 8 * 8;
    forall j | 0 <= j < |f| && j != i
      ensures f[j] in g
    {
      var k := if j < i then j else if f[i].size < need + 24 then j - 1 else j;
      assert g[k] == f[j];
    }
    if got < f[i].size {
      assert g[i] == Piece(f[i].start + 16 + need, f[i].size - need - 16) && g[i].End() == f[i].End();
    }
  }

  /** From a single free piece, 8 bytes: 24 go off its front, header included, unless less
      than a block would remain.  A new page gives a block of 8 and keeps 4056 free. */
  lemma EightBytes(a: nat, n: nat, g: seq<Piece>, ptr: nat, got: nat)
    requires Served([Piece(a, n)], g, 8, ptr, got)
    ensures ptr == a + 16
    ensures if n < 32 then got == n && g == [] else got == 8 && g == [Piece(a + 24, n - 24)]
    ensures n == 4080 ==> got == 8 && g == [Piece(a + 24, 4056)]
  {
    var i: nat :| ServedFrom([Piece(a, n)], g, i, 8, got) && ptr == [Piece(a, n)][i].start + 16;
    assert i == 0;
  }

  lemma PiecesEmpty(hdr: map<nat, Block>, list: seq<nat>, size: nat)
    ensures (Pieces(hdr, list) == [] <==> list == []) && !Fits([], size)
  {
  }

  // Cutting piece i and removing its front part, or removing it whole.
  lemma ServedCut(f: seq<Piece>, i: nat, size: nat, q: seq<Piece>)
    requires i < |f| && f[i].size >= size && forall j :: 0 <= j < i ==> f[j].size < size
    requires var need := (size + 7) / 8 * 8;
             if f[i].size < need + 24 then q == f
             else q == f[..i] + [Piece(f[i].start, need), Piece(f[i].start + 16 + need, f[i].size - need - 16)]
                       + f[i + 1..]
    ensures i < |q| && ServedFrom(f, q[..i] + q[i + 1..], i, size, q[i].size)
  {
    assert q[..i] == f[..i];
  }

  // ---------------------------------------------------------------- joining

  // b starts where a ends.
  predicate Adjacent(a: Piece, b: Piece) {
    b.start == a.End()
  }

  function Join(a: Piece, b: Piece): Piece {
    Piece(a.start, a.size + 16 + b.size)
  }

  // No piece is followed by the one that starts where it ends.
  ghost predicate Loose(f: seq<Piece>) {
    forall i :: 0 <= i < |f| - 1 ==> !Adjacent(f[i], f[i + 1])
  }

  // Neighbours in the sequence that are adjacent in memory, joined from the left.
  function Coalesced(f: seq<Piece>): seq<Piece>
    decreases |f|
  {
    if |f| < 2 then f
    else if Adjacent(f[0], f[1]) then Coalesced([Join(f[0], f[1])] + f[2..])
    else [f[0]] + Coalesced(f[1..])
  }

  /** Joining leaves no neighbours adjacent, changes nothing if there are none, and keeps
      the first start. */
  lemma {:induction false} CoalescedLoose(f: seq<Piece>)
    ensures Loose(Coalesced(f))
    ensures Coalesced(f) == f <==> Loose(f)
    ensures |Coalesced(f)| <= |f|
    ensures f != [] ==> Coalesced(f) != [] && Coalesced(f)[0].start == f[0].start
    decreases |f|
  {
    if |f| >= 2 {
      var h := [Join(f[0], f[1])] + f[2..];
      if Adjacent(f[0], f[1]) {
        CoalescedLoose(h);
        assert |Coalesced(f)| < |f|;
      } else {
        CoalescedLoose(f[1..]);
        CoalescedTail(f);
      }
    }
  }

  lemma CoalescedTail(f: seq<Piece>)
    requires |f| >= 2 && !Adjacent(f[0], f[1])
    requires Loose(Coalesced(f[1..])) && Coalesced(f[1..]) != [] && Coalesced(f[1..])[0].start == f[1].start
    requires Coalesced(f[1..]) == f[1..] <==> Loose(f[1..])
    ensures Loose(Coalesced(f)) && (Coalesced(f) == f <==> Loose(f))
  {
    var t := Coalesced(f[1..]);
    var r := Coalesced(f);
    assert r == [f[0]] + t;
    forall i | 0 <= i < |r| - 1
      ensures !Adjacent(r[i], r[i + 1])
    {
      assert i > 0 ==> r[i] == t[i - 1] && r[i + 1] == t[i];
    }
    if Loose(f) {
      forall i | 0 <= i < |f[1..]| - 1
        ensures !Adjacent(f[1..][i], f[1..][i + 1])
      {
        assert !Adjacent(f[i + 1], f[i + 2]);
      }
    }
  }

  // The joining loop at piece i of g, with the pieces f to join at its start.
  ghost predicate Joining(f: seq<Piece>, g: seq<Piece>, i: nat) {
    i <= |g| && g[..i] + Coalesced(g[i..]) == Coalesced(f)
  }

  // It starts at the first piece and ends behind the last.
  lemma JoiningEnds(f: seq<Piece>, g: seq<Piece>)
    ensures Joining(f, f, 0) && (Joining(f, g, |g|) ==> g == Coalesced(f))
  {
    assert f[0..] == f;
  }

  // One turn: join piece i with the next, or go on to the next.
  lemma JoiningTurn(f: seq<Piece>, g: seq<Piece>, i: nat)
    requires Joining(f, g, i) && i < |g|
    ensures if i + 1 < |g| && Adjacent(g[i], g[i + 1]) then Joining(f, g[..i] + [Join(g[i], g[i + 1])] + g[i + 2..], i)
            else Joining(f, g, i + 1)
  {
    if i + 1 < |g| && Adjacent(g[i], g[i + 1]) {
      var r := g[..i] + [Join(g[i], g[i + 1])] + g[i + 2..];
      assert r[..i] == g[..i];
      assert r[i..] == [Join(g[i], g[i + 1])] + g[i..][2..];
    } else {
      assert g[i..][1..] == g[i + 1..];
      assert g[..i + 1] == g[..i] + [g[i]];
    }
  }

  lemma PiecesAdjacent(hdr: map<nat, Block>, list: seq<nat>, i: nat)
    requires i < |list| && list[i] in hdr
    ensures i + 1 < |list| ==> (Adjacent(Pieces(hdr, list)[i], Pieces(hdr, list)[i + 1]) <==> Mergeable(hdr, list, i))
  {
  }

  // Element i of the list does not end where the next one starts: go on.
  lemma JoiningGoesOn(f: seq<Piece>, hdr: map<nat, Block>, list: seq<nat>, i: nat)
    requires i < |list| && list[i] in hdr && Joining(f, Pieces(hdr, list), i) && !Mergeable(hdr, list, i)
    ensures Joining(f, Pieces(hdr, list), i + 1)
  {
    hide Joining;
    PiecesAdjacent(hdr, list, i);
    JoiningTurn(f, Pieces(hdr, list), i);
  }

  // The byte x lies in a piece, header included.
  ghost predicate Holds(f: seq<Piece>, x: nat) {
    exists i :: 0 <= i < |f| && f[i].start <= x < f[i].End()
  }

  /** Joining neither loses nor adds a byte. */
  lemma {:induction false} CoalescedHolds(f: seq<Piece>, x: nat)
    ensures Holds(Coalesced(f), x) <==> Holds(f, x)
    decreases |f|
  {
    if |f| >= 2 {
      if Adjacent(f[0], f[1]) {
        var h := [Join(f[0], f[1])] + f[2..];
        CoalescedHolds(h, x);
        HoldsFirst(h, x);
        HoldsFirst(f, x);
        HoldsFirst(f[1..], x);
        assert h[1..] == f[2..] == f[1..][1..];
      } else {
        CoalescedHolds(f[1..], x);
        HoldsFirst(f, x);
        HoldsFirst(Coalesced(f), x);
        assert Coalesced(f)[1..] == Coalesced(f[1..]);
      }
    }
  }

  lemma HoldsFirst(f: seq<Piece>, x: nat)
    requires f != []
    ensures Holds(f, x) <==> f[0].start <= x < f[0].End() || Holds(f[1..], x)
  {
    if Holds(f, x) && !(f[0].start <= x < f[0].End()) {
      var i :| 0 <= i < |f| && f[i].start <= x < f[i].End();
      assert f[1..][i - 1] == f[i];
    }
    if Holds(f[1..], x) {
      var i :| 0 <= i < |f[1..]| && f[1..][i].start <= x < f[1..][i].End();
      assert f[i + 1] == f[1..][i];
    }
  }

  /** kmalloc and then kfree of what it gave: the free pieces are what they were, order
      included, if and only if the piece found was the first of the list and the list had no
      adjacent neighbours.  Behind the first, every such pair leaves the list changed. */
  lemma SmallRoundTrip(f: seq<Piece>, g: seq<Piece>, i: nat, size: nat, got: nat)
    requires ServedFrom(f, g, i, size, got)
    requires i > 0 ==> f[0].start != f[i].start
    ensures Coalesced([Piece(f[i].start, got)] + g) == f <==> i == 0 && Loose(f)
  {
    var h := [Piece(f[i].start, got)] + g;
    CoalescedLoose(h);
    CoalescedLoose(f);
    if i == 0 {
      if got == f[0].size {
        assert h == f;
      } else {
        assert Adjacent(h[0], h[1]) && Join(h[0], h[1]) == f[0];
        assert [Join(h[0], h[1])] + h[2..] == f;
      }
    } else {
      assert Coalesced(h)[0].start == f[i].start != f[0].start;
    }
  }

  /** With 8 bytes free at 0x1000 and then a page at 0x2000, kmalloc(16) and kfree leave the
      page in two free pieces, which are adjacent but not neighbours on the list. */
  lemma FragmentExample(g: seq<Piece>, i: nat, got: nat)
    requires ServedFrom([Piece(0x1000, 8), Piece(0x2000, 4080)], g, i, 16, got)
    ensures i == 1 && got == 16
    ensures Coalesced([Piece(0x2000, got)] + g) == [Piece(0x2000, 16), Piece(0x1000, 8), Piece(0x2020, 4048)]
  {
    var f := [Piece(0x1000, 8), Piece(0x2000, 4080)];
    assert f[i].size >= 16;
    assert i == 1;
    var h := [Piece(0x2000, got)] + g;
    assert h == [Piece(0x2000, 16), Piece(0x1000, 8), Piece(0x2020, 4048)];
    assert forall j :: 0 <= j < 2 ==> !Adjacent(h[j], h[j + 1]);
    CoalescedLoose(h);
  }

  lemma ServedRoundTrip(f: seq<Piece>, g: seq<Piece>, size: nat, ptr: nat, got: nat)
    requires Served(f, g, size, ptr, got)
    requires f[0].size >= size || forall j :: 0 < j < |f| ==> f[0].start != f[j].start
    ensures ptr >= 16 && (Coalesced([Piece(ptr - 16, got)] + g) == f <==> f[0].size >= size && Loose(f))
  {
    hide Coalesced, Loose;
    var i: nat :| ServedFrom(f, g, i, size, got) && ptr == f[i].start + 16;
    SmallRoundTrip(f, g, i, size, got);
  }

  // No two pieces of the list start at the same place.
  lemma PiecesDistinct(s: State)
    requires ListOk(s)
    ensures var f := Pieces(s.hdr, s.list);
            forall j, k :: 0 <= j < k < |f| ==> f[j].start != f[k].start
  {
  }

  // ---------------------------------------------------------------- the changes of the heap

  lemma GrownPieces(s: State, p: nat)
    requires HeapOk(s) && NewPage(s.pages, p)
    ensures Pieces(Grown(s, p).hdr, Grown(s, p).list) == [Piece(p, 4080)] + Pieces(s.hdr, s.list)
  {
    hide Tiles, Total;
    assert p !in Blocks(s) by { GrownTiles(Extents(s), s.pages, p); }
    forall i | 0 <= i < |s.list|
      ensures s.list[i] != p
    {
      ListInBlocks(s, i);
    }
  }

  lemma SplitPieces(s: State, i: nat, size: nat)
    requires HeapOk(s) && i < |s.list| && s.hdr[s.list[i]].size >= size + MIN_BLOCK && size % 8 == 0 && size >= 8
    ensures var b := s.list[i];
            var f, r := Pieces(s.hdr, s.list), SplitAt(s, i, size);
            Pieces(r.hdr, r.list)
            == f[..i] + [Piece(b, size), Piece(b + 16 + size, f[i].size - size - 16)] + f[i + 1..]
  {
    hide Tiles, Total, IsFreeBlock, Blocks;
    var b := s.list[i];
    ListInBlocks(s, i);
    CutTiles(Extents(s), s.pages, b, b + HEADER + size);
    forall j | 0 <= j < |s.list|
      ensures s.list[j] != b + HEADER + size
    {
      ListInBlocks(s, j);
    }
    SplitSizes(s, i, size);
  }

  lemma SplitSizes(s: State, i: nat, size: nat)
    requires ListOk(s) && i < |s.list| && s.list[i] in s.hdr && s.hdr[s.list[i]].size >= size + MIN_BLOCK
    requires forall j :: 0 <= j < |s.list| ==> s.list[j] != s.list[i] + HEADER + size
    ensures var b := s.list[i];
            var f, r := Pieces(s.hdr, s.list), SplitAt(s, i, size);
            Pieces(r.hdr, r.list)
            == f[..i] + [Piece(b, size), Piece(b + 16 + size, f[i].size - size - 16)] + f[i + 1..]
  {
    hide IsFreeBlock;
  }

  lemma TakenPieces(s: State, i: nat)
    requires ListOk(s) && i < |s.list| && s.list[i] in s.hdr && (i > 0 ==> s.list[i - 1] in s.hdr)
    ensures var f, r := Pieces(s.hdr, s.list), Taken(s, i);
            Pieces(r.hdr, r.list) == f[..i] + f[i + 1..]
            && s.list[i] in r.hdr && r.hdr[s.list[i]].size == f[i].size
  {
    hide IsFreeBlock;
  }

  lemma ReleasedPieces(s: State, b: nat)
    requires ListOk(s) && b in s.live && b in s.hdr
    ensures var r := Released(s, b);
            Pieces(r.hdr, r.list) == [Piece(b, s.hdr[b].size)] + Pieces(s.hdr, s.list)
  {
    forall i | 0 <= i < |s.list|
      ensures s.list[i] != b
    {
      ListInBlocks(s, i);
    }
  }

  lemma MergedPieces(s: State, i: nat)
    requires ListOk(s) && Mergeable(s.hdr, s.list, i) && s.list[i + 1] in s.hdr
    ensures var f, r := Pieces(s.hdr, s.list), Merged(s, i);
            && Adjacent(f[i], f[i + 1])
            && Pieces(r.hdr, r.list) == f[..i] + [Join(f[i], f[i + 1])] + f[i + 2..]
  {
    hide IsFreeBlock;
  }
}
