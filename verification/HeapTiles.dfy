/**
 Tilings of the heap's pages by blocks: a map from each block's start to its end.
 Splitting, merging and growing keep a tiling exact.
 */
module HeapTiles {

  const PAGE: nat := 4096

  ghost predicate InPages(pages: seq<nat>, x: nat) {
    exists i :: 0 <= i < |pages| && pages[i] <= x < pages[i] + PAGE
  }

  ghost predicate InTile(ext: map<nat, nat>, a: nat, x: nat) {
    a in ext && a <= x < ext[a]
  }

  ghost predicate Covered(ext: map<nat, nat>, x: nat) {
    exists a :: InTile(ext, a, x)
  }

  /** The blocks are non-empty, do not overlap, and cover exactly the bytes of the pages. */
  ghost predicate Tiles(ext: map<nat, nat>, pages: seq<nat>) {
    && (forall a :: a in ext ==> a < ext[a])
    && (forall a, b :: a in ext && b in ext && a < b ==> ext[a] <= b)
    && (forall x :: Covered(ext, x) <==> InPages(pages, x))
  }

  // Total length of all blocks.
  ghost function Total(ext: map<nat, nat>): int {
    if ext == map[] then 0
    else
      var a :| a in ext;
      ext[a] - a + Total(ext - {a})
  }

  lemma {:induction false} TotalRemove(ext: map<nat, nat>, a: nat)
    requires a in ext
    ensures Total(ext) == ext[a] - a + Total(ext - {a})
    decreases |ext|
  {
    var b :| b in ext && Total(ext) == ext[b] - b + Total(ext - {b});
    if b != a {
      TotalRemove(ext - {b}, a);
      TotalRemove(ext - {a}, b);
      assert ext - {b} - {a} == ext - {a} - {b};
    }
  }

  // Block a is cut at m.
  ghost function Cut(ext: map<nat, nat>, a: nat, m: nat): map<nat, nat>
    requires a in ext
  {
    ext[a := m][m := ext[a]]
  }

  // Block a takes over the block m behind it.
  ghost function Joined(ext: map<nat, nat>, a: nat, m: nat): map<nat, nat>
    requires a in ext && m in ext
  {
    (ext - {m})[a := ext[m]]
  }

  lemma CutTiles(ext: map<nat, nat>, pages: seq<nat>, a: nat, m: nat)
    requires Tiles(ext, pages) && a in ext && a < m < ext[a]
    ensures m !in ext && Tiles(Cut(ext, a, m), pages) && Total(Cut(ext, a, m)) == Total(ext)
  {
    var r := Cut(ext, a, m);
    assert m !in ext;
    forall x: nat
      ensures Covered(r, x) <==> Covered(ext, x)
    {
      CutCovers(ext, a, m, x);
    }
    hide Covered, InPages;
    CutTotal(ext, a, m);
  }

  lemma CutCovers(ext: map<nat, nat>, a: nat, m: nat, x: nat)
    requires a in ext && a < m < ext[a] && m !in ext
    ensures Covered(Cut(ext, a, m), x) <==> Covered(ext, x)
  {
    var r := Cut(ext, a, m);
    if Covered(ext, x) {
      var b :| InTile(ext, b, x);
      assert InTile(r, if b == a && x >= m then m else b, x);
    }
    if Covered(r, x) {
      var b :| InTile(r, b, x);
      assert InTile(ext, if b == m then a else b, x);
    }
  }

  lemma CutTotal(ext: map<nat, nat>, a: nat, m: nat)
    requires a in ext && m !in ext
    ensures Total(Cut(ext, a, m)) == Total(ext)
  {
    var r := Cut(ext, a, m);
    TotalRemove(ext, a);
    TotalRemove(r, a);
    TotalRemove(r - {a}, m);
    assert r - {a} - {m} == ext - {a};
  }

  lemma JoinedTiles(ext: map<nat, nat>, pages: seq<nat>, a: nat, m: nat)
    requires Tiles(ext, pages) && a in ext && m in ext && ext[a] == m
    ensures Tiles(Joined(ext, a, m), pages) && Total(Joined(ext, a, m)) == Total(ext)
  {
    var r := Joined(ext, a, m);
    forall x: nat
      ensures Covered(r, x) <==> Covered(ext, x)
    {
      if Covered(ext, x) {
        var b :| InTile(ext, b, x);
        assert InTile(r, if b == m then a else b, x);
      }
      if Covered(r, x) {
        var b :| InTile(r, b, x);
        assert InTile(ext, if b == a && x >= m then m else b, x);
      }
    }
    JoinedTotal(ext, a, m);
  }

  lemma JoinedTotal(ext: map<nat, nat>, a: nat, m: nat)
    requires a in ext && m in ext && ext[a] == m && a != m
    ensures Total(Joined(ext, a, m)) == Total(ext)
  {
    var r := Joined(ext, a, m);
    TotalRemove(ext, a);
    TotalRemove(ext - {a}, m);
    TotalRemove(r, a);
    assert r - {a} == ext - {a} - {m};
  }

  // A page apart from all pages so far.
  ghost predicate NewPage(pages: seq<nat>, p: nat) {
    forall i :: 0 <= i < |pages| ==> pages[i] + PAGE <= p || p + PAGE <= pages[i]
  }

  lemma GrownTiles(ext: map<nat, nat>, pages: seq<nat>, p: nat)
    requires Tiles(ext, pages) && NewPage(pages, p)
    ensures p !in ext && Tiles(ext[p := p + PAGE], pages + [p]) && Total(ext[p := p + PAGE]) == Total(ext) + PAGE
  {
    var r := ext[p := p + PAGE];
    OutsidePages(ext, pages, p);
    forall x: nat
      ensures Covered(r, x) <==> InPages(pages + [p], x)
    {
      PagesPlus(pages, p, x);
      if Covered(r, x) {
        var b :| InTile(r, b, x);
        assert b != p ==> InTile(ext, b, x);
      }
      if InPages(pages, x) {
        var b :| InTile(ext, b, x);
        assert InTile(r, b, x);
      } else if p <= x < p + PAGE {
        assert InTile(r, p, x);
      }
    }
    TotalRemove(r, p);
    assert r - {p} == ext;
  }

  lemma PagesPlus(pages: seq<nat>, p: nat, x: nat)
    ensures InPages(pages + [p], x) <==> InPages(pages, x) || p <= x < p + PAGE
  {
    var q := pages + [p];
    if InPages(pages, x) {
      var i :| 0 <= i < |pages| && pages[i] <= x < pages[i] + PAGE;
      assert q[i] <= x < q[i] + PAGE;
    }
    if p <= x < p + PAGE {
      assert q[|pages|] <= x < q[|pages|] + PAGE;
    }
  }

  // No block reaches into a new page.
  lemma OutsidePages(ext: map<nat, nat>, pages: seq<nat>, p: nat)
    requires Tiles(ext, pages) && NewPage(pages, p)
    ensures forall a :: a in ext ==> ext[a] <= p || p + PAGE <= a
  {
    forall a | a in ext
      ensures ext[a] <= p || p + PAGE <= a
    {
      if a < p + PAGE && p < ext[a] {
        var x := if a <= p then p else a;
        assert InTile(ext, a, x);
        assert Covered(ext, x);
      }
    }
  }
}
