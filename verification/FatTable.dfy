/**
 The in-memory FAT16 table of fs/fat.c: cluster chains as linked entries of one
 array, with a dirty flag.  Pure functions on the table's contents give the meaning
 of each operation; class `ClusterTable` runs them in place.
 */
module FatTable {

  type u16 = x: int | 0 <= x < 0x10000

  const FREE: u16 := 0
  const EOC: u16 := 0xFFF8

  // A value that ends every chain walk in the driver.
  predicate Stops(c: u16) {
    c < 2 || c >= EOC
  }

  // `n` is total_clusters + 2, the first cluster number that is out of range.
  function Next(t: seq<u16>, n: nat, c: u16): u16
    requires n <= |t|
  {
    if c >= n then EOC else t[c]
  }

  function Put(t: seq<u16>, n: nat, c: u16, v: u16): (r: seq<u16>)
    requires n <= |t|
  {
    if c >= n then t else t[c := v]
  }

  // The free clusters of a table.
  function FreeSet(t: seq<u16>, n: nat): set<u16>
    requires n <= |t|
  {
    set c: u16 | 2 <= c < n && t[c] == FREE
  }

  function UsedCount(t: seq<u16>): nat {
    if t == [] then 0 else UsedCount(t[..|t| - 1]) + if t[|t| - 1] == FREE then 0 else 1
  }

  lemma {:induction false} UsedCountDrops(t: seq<u16>, c: nat)
    requires c < |t| && t[c] != FREE
    ensures UsedCount(t[c := FREE]) == UsedCount(t) - 1
  {
    var r := t[c := FREE];
    if c == |t| - 1 {
      assert r[..|t| - 1] == t[..|t| - 1];
    } else {
      assert r[..|t| - 1] == t[..|t| - 1][c := FREE];
      UsedCountDrops(t[..|t| - 1], c);
    }
  }

  lemma PutFreeMeasure(t: seq<u16>, n: nat, c: u16)
    requires n <= |t|
    ensures UsedCount(Put(t, n, c, FREE)) <= UsedCount(t)
    ensures c < n && t[c] != FREE ==> UsedCount(Put(t, n, c, FREE)) < UsedCount(t)
  {
    if c < n {
      if t[c] == FREE {
        assert t[c := FREE] == t;
      } else {
        UsedCountDrops(t, c);
      }
    }
  }

  /** The table left by fat_free_cluster_chain.  Defined for every table content: a
      revisited cluster is already free, so the walk reaches 0 and stops. */
  function FreeFrom(t: seq<u16>, n: nat, c: u16): (r: seq<u16>)
    requires n <= |t|
    ensures |r| == |t|
    decreases UsedCount(t), if Stops(c) then 0 else 1
  {
    if Stops(c) then t
    else
      PutFreeMeasure(t, n, c);
      FreeFrom(Put(t, n, c, FREE), n, Next(t, n, c))
  }

  // The clusters that fat_free_cluster_chain visits, on any table.
  ghost function Visited(t: seq<u16>, n: nat, c: u16): set<u16>
    requires n <= |t|
    decreases UsedCount(t), if Stops(c) then 0 else 1
  {
    if Stops(c) || c >= n then {}
    else
      PutFreeMeasure(t, n, c);
      {c} + Visited(Put(t, n, c, FREE), n, Next(t, n, c))
  }

  // Table `t` with the entries of the clusters in `s` freed.
  function Cleared(t: seq<u16>, s: set<u16>): (r: seq<u16>)
    ensures |r| == |t|
  {
    seq(|t|, i requires 0 <= i < |t| => if i < 0x10000 && i in s then FREE else t[i])
  }

  /** On every table, even a cyclic or out-of-range one, freeing from `c` frees the
      clusters on the walk from `c` and touches no other entry. */
  lemma {:induction false} FreeFromIsCleared(t: seq<u16>, n: nat, c: u16)
    requires n <= |t|
    ensures FreeFrom(t, n, c) == Cleared(t, Visited(t, n, c))
    decreases UsedCount(t), if Stops(c) then 0 else 1
  {
    if Stops(c) {
    } else {
      PutFreeMeasure(t, n, c);
      FreeFromIsCleared(Put(t, n, c, FREE), n, Next(t, n, c));
      if c >= n {
        assert Stops(Next(t, n, c));
      }
    }
  }

  // ---------------------------------------------------------------- chains

  predicate Distinct(s: seq<u16>) {
    forall i, j :: 0 <= i < j < |s| ==> s[i] != s[j]
  }

  // `s` is the cluster chain starting at s[0]: in range, acyclic, ended by EOC.
  ghost predicate IsChain(t: seq<u16>, n: nat, s: seq<u16>)
    requires n <= |t|
  {
    && |s| > 0
    && (forall i :: 0 <= i < |s| ==> 2 <= s[i] < n)
    && Distinct(s)
    && (forall i :: 0 <= i < |s| - 1 ==> t[s[i]] == s[i + 1])
    && t[s[|s| - 1]] >= EOC
  }

  // Every chain of `m` is listed under its first cluster, and chains share no cluster.
  ghost predicate WellFormed(t: seq<u16>, n: nat, m: map<u16, seq<u16>>)
    requires n <= |t|
  {
    && (forall c :: c in m ==> IsChain(t, n, m[c]) && m[c][0] == c)
    && (forall c, d :: c in m && d in m && c != d ==> Apart(m[c], m[d]))
  }

  ghost predicate Apart(a: seq<u16>, b: seq<u16>) {
    forall i, j :: 0 <= i < |a| && 0 <= j < |b| ==> a[i] != b[j]
  }

  function Elements(s: seq<u16>): (r: set<u16>) {
    set i | 0 <= i < |s| :: s[i]
  }

  lemma ChainFrame(t: seq<u16>, u: seq<u16>, n: nat, s: seq<u16>)
    requires n <= |t| == |u|
    requires IsChain(t, n, s)
    requires forall i :: 0 <= i < |s| ==> u[s[i]] == t[s[i]]
    ensures IsChain(u, n, s)
  {
  }

  // The clusters of a chain hold non-free entries.
  lemma ChainNotFree(t: seq<u16>, n: nat, s: seq<u16>, i: nat)
    requires n <= |t| && IsChain(t, n, s) && i < |s|
    ensures t[s[i]] != FREE
  {
    if i < |s| - 1 {
      assert t[s[i]] == s[i + 1];
    }
  }

  // Only the last cluster of a chain holds an end mark.
  lemma ChainEndsAt(t: seq<u16>, n: nat, s: seq<u16>, i: nat)
    requires n <= |t| && n <= EOC && IsChain(t, n, s) && i < |s|
    requires t[s[i]] >= EOC
    ensures i == |s| - 1
  {
    forall j | 0 <= j < |s| - 1
      ensures t[s[j]] < EOC
    {
      assert t[s[j]] == s[j + 1];
    }
  }

  // Following a chain: the next cluster, or an end mark behind the last one.
  lemma ChainNext(t: seq<u16>, n: nat, s: seq<u16>, i: nat)
    requires n <= |t| && n <= EOC && IsChain(t, n, s) && i < |s|
    ensures 2 <= s[i] < n && |s| > 0 && s[|s| - 1] < n
    ensures if i < |s| - 1 then Next(t, n, s[i]) == s[i + 1] < EOC else Next(t, n, s[i]) >= EOC
  {
  }

  // A first cluster determines its chain.
  lemma {:induction false} ChainUnique(t: seq<u16>, n: nat, a: seq<u16>, b: seq<u16>)
    requires n <= |t| && n <= EOC
    requires IsChain(t, n, a) && IsChain(t, n, b) && a[0] == b[0]
    ensures a == b
  {
    var k := if |a| <= |b| then |a| else |b|;
    ChainAgree(t, n, a, b, k);
    assert a[k - 1] == a[..k][k - 1] == b[k - 1];
    if |a| <= |b| {
      ChainEndsAt(t, n, b, k - 1);
    } else {
      ChainEndsAt(t, n, a, k - 1);
    }
  }

  lemma {:induction false} ChainAgree(t: seq<u16>, n: nat, a: seq<u16>, b: seq<u16>, k: nat)
    requires n <= |t| && IsChain(t, n, a) && IsChain(t, n, b) && a[0] == b[0]
    requires 1 <= k <= |a| && k <= |b|
    ensures a[..k] == b[..k]
  {
    if k > 1 {
      ChainAgree(t, n, a, b, k - 1);
      assert a[..k - 1][k - 2] == b[..k - 1][k - 2];
      assert a[..k] == a[..k - 1] + [a[k - 1]];
      assert b[..k] == b[..k - 1] + [b[k - 1]];
    }
  }

  /** On a well-formed chain the driver frees exactly the chain's clusters. */
  lemma {:induction false} FreeChainExact(t: seq<u16>, n: nat, s: seq<u16>)
    requires n <= |t| && n <= EOC && IsChain(t, n, s)
    ensures FreeFrom(t, n, s[0]) == Cleared(t, Elements(s))
    decreases |s|
  {
    var c := s[0];
    var u := Put(t, n, c, FREE);
    PutFreeMeasure(t, n, c);
    if |s| == 1 {
      assert Elements(s) == {c};
    } else {
      var rest := s[1..];
      assert IsChain(u, n, rest);
      FreeChainExact(u, n, rest);
      ElementsCons(s);
    }
  }

  lemma ElementsCons(s: seq<u16>)
    requires |s| > 0
    ensures Elements(s) == {s[0]} + Elements(s[1..])
  {
    forall x | x in Elements(s)
      ensures x in {s[0]} + Elements(s[1..])
    {
      var i :| 0 <= i < |s| && s[i] == x;
      if i > 0 {
        assert s[1..][i - 1] == x;
      }
    }
    forall x | x in Elements(s[1..])
      ensures x in Elements(s)
    {
      var i :| 0 <= i < |s[1..]| && s[1..][i] == x;
      assert s[i + 1] == x;
    }
  }

  /** Freeing one chain of a well-formed table leaves the others well-formed and
      returns exactly that chain's clusters to the free set. */
  lemma FreeKeepsWellFormed(t: seq<u16>, n: nat, m: map<u16, seq<u16>>, c: u16)
    requires n <= |t| && n <= EOC && WellFormed(t, n, m) && c in m
    ensures WellFormed(FreeFrom(t, n, c), n, m - {c})
    ensures FreeSet(FreeFrom(t, n, c), n) == FreeSet(t, n) + Elements(m[c])
  {
    FreeChainExact(t, n, m[c]);
    forall d | d in m - {c}
      ensures IsChain(Cleared(t, Elements(m[c])), n, m[d])
    {
      ClearedKeepsChain(t, n, m[c], m[d]);
    }
    ClearedFree(t, n, Elements(m[c]));
  }

  lemma ClearedKeepsChain(t: seq<u16>, n: nat, gone: seq<u16>, s: seq<u16>)
    requires n <= |t| && IsChain(t, n, s) && Apart(gone, s)
    ensures IsChain(Cleared(t, Elements(gone)), n, s)
  {
    ChainFrame(t, Cleared(t, Elements(gone)), n, s);
  }

  lemma ClearedFree(t: seq<u16>, n: nat, gone: set<u16>)
    requires n <= |t|
    requires forall c :: c in gone ==> 2 <= c < n
    ensures FreeSet(Cleared(t, gone), n) == FreeSet(t, n) + gone
  {
  }

  // ---------------------------------------------------------------- allocation

  // First free cluster at or above i, or n when there is none.
  function FirstFree(t: seq<u16>, n: nat, i: nat): (r: nat)
    requires i <= n <= |t|
    ensures i <= r <= n
    ensures r < n ==> t[r] == FREE
    ensures forall j :: i <= j < r ==> t[j] != FREE
    decreases n - i
  {
    if i == n || t[i] == FREE then i else FirstFree(t, n, i + 1)
  }

  lemma FreshIsApart(t: seq<u16>, n: nat, m: map<u16, seq<u16>>, d: u16)
    requires n <= |t| && WellFormed(t, n, m)
    requires 2 <= d < n && t[d] == FREE
    ensures forall c, i :: c in m && 0 <= i < |m[c]| ==> m[c][i] != d
  {
    forall c, i | c in m && 0 <= i < |m[c]|
      ensures m[c][i] != d
    {
      ChainNotFree(t, n, m[c], i);
    }
  }

  /** A newly allocated cluster is a one-cluster chain apart from all others. */
  lemma AllocKeepsWellFormed(t: seq<u16>, n: nat, m: map<u16, seq<u16>>, d: u16)
    requires n <= |t| && WellFormed(t, n, m)
    requires 2 <= d < n && t[d] == FREE
    ensures d !in m
    ensures WellFormed(t[d := EOC], n, m[d := [d]])
    ensures FreeSet(t[d := EOC], n) == FreeSet(t, n) - {d}
  {
    hide IsChain;
    FreshIsApart(t, n, m, d);
    var u := t[d := EOC];
    forall c | c in m
      ensures IsChain(u, n, m[c]) && |m[c]| > 0 && d !in m[c] && m[c][0] != d
    {
      ChainKept(t, n, m[c], d);
    }
    SingleChain(u, n, d);
  }

  lemma ChainKept(t: seq<u16>, n: nat, s: seq<u16>, d: u16)
    requires n <= |t| && IsChain(t, n, s)
    requires 2 <= d < n && t[d] == FREE
    ensures IsChain(t[d := EOC], n, s) && d !in s && |s| > 0
  {
    forall i | 0 <= i < |s|
      ensures s[i] != d
    {
      ChainNotFree(t, n, s, i);
    }
  }

  lemma SingleChain(t: seq<u16>, n: nat, d: u16)
    requires n <= |t| && 2 <= d < n && t[d] >= EOC
    ensures IsChain(t, n, [d])
  {
  }

  // The table after allocating d and linking it behind the last cluster of s.
  function Linked(t: seq<u16>, s: seq<u16>, d: u16): seq<u16>
    requires |s| > 0 && d < |t| && s[|s| - 1] < |t|
  {
    t[d := EOC][s[|s| - 1] := d]
  }

  lemma LinkIsChain(t: seq<u16>, n: nat, s: seq<u16>, d: u16)
    requires n <= |t| && IsChain(t, n, s)
    requires 2 <= d < n && t[d] == FREE
    ensures IsChain(Linked(t, s, d), n, s + [d])
  {
    forall i | 0 <= i < |s|
      ensures s[i] != d
    {
      ChainNotFree(t, n, s, i);
    }
    var u, r := Linked(t, s, d), s + [d];
    forall i | 0 <= i < |r| - 1
      ensures u[r[i]] == r[i + 1]
    {
      if i < |s| - 1 {
        assert s[i] != s[|s| - 1];
      }
    }
  }

  /** Extending the chain of c by a free cluster d keeps the table well-formed. */
  lemma LinkKeepsWellFormed(t: seq<u16>, n: nat, m: map<u16, seq<u16>>, c: u16, d: u16)
    requires n <= |t| && WellFormed(t, n, m) && c in m
    requires 2 <= d < n && t[d] == FREE
    ensures WellFormed(Linked(t, m[c], d), n, m[c := m[c] + [d]])
    ensures FreeSet(Linked(t, m[c], d), n) == FreeSet(t, n) - {d}
  {
    var s := m[c];
    assert |s| > 0 && s[|s| - 1] < |t| && t[s[|s| - 1]] >= EOC;
    var u := Linked(t, s, d);
    LinkIsChain(t, n, s, d);
    assert (s + [d])[0] == s[0];
    LinkedFreeSet(t, n, s, d);
    hide IsChain, Linked, FreeSet;
    forall b | b in m && b != c
      ensures IsChain(u, n, m[b]) && Apart(m[b], s + [d]) && Apart(s + [d], m[b])
    {
      LinkSpares(t, n, m[b], s, d);
    }
  }

  // A chain apart from the grown one.
  lemma LinkSpares(t: seq<u16>, n: nat, a: seq<u16>, s: seq<u16>, d: u16)
    requires n <= |t| && IsChain(t, n, a) && IsChain(t, n, s) && Apart(a, s) && 2 <= d < n && t[d] == FREE
    ensures IsChain(Linked(t, s, d), n, a) && Apart(a, s + [d]) && Apart(s + [d], a)
  {
    forall i | 0 <= i < |a|
      ensures a[i] != d
    {
      ChainNotFree(t, n, a, i);
    }
    ChainFrame(t, Linked(t, s, d), n, a);
  }

  lemma LinkedFreeSet(t: seq<u16>, n: nat, s: seq<u16>, d: u16)
    requires n <= |t| && |s| > 0 && s[|s| - 1] < |t| && t[s[|s| - 1]] >= EOC && 2 <= d < n
    ensures FreeSet(Linked(t, s, d), n) == FreeSet(t, n) - {d}
  {
  }

  /** What the extension loop of fat_node_write makes of the chain s: grown one
      lowest-free cluster at a time to `needed` clusters, or until none is free. */
  ghost function Extended(t: seq<u16>, n: nat, s: seq<u16>, needed: nat): (r: (seq<u16>, seq<u16>))
    requires 2 <= n <= |t| && n <= EOC && IsChain(t, n, s)
    ensures |r.0| == |t| && IsChain(r.0, n, r.1) && s <= r.1
    ensures |r.1| == |s| ==> r == (t, s)
    decreases needed - |s|
  {
    var d := FirstFree(t, n, 2);
    if |s| >= needed || d == n then (t, s)
    else
      LinkIsChain(t, n, s, d);
      Extended(Linked(t, s, d), n, s + [d], needed)
  }

  // One turn of the extension loop.
  lemma ExtendedStep(t: seq<u16>, n: nat, s: seq<u16>, needed: nat)
    requires 2 <= n <= |t| && n <= EOC && IsChain(t, n, s) && |s| < needed
    ensures var d := FirstFree(t, n, 2);
            if d == n then Extended(t, n, s, needed) == (t, s)
            else
              IsChain(Linked(t, s, d), n, s + [d])
              && Extended(t, n, s, needed) == Extended(Linked(t, s, d), n, s + [d], needed)
  {
    hide IsChain, FirstFree, Linked;
    if FirstFree(t, n, 2) != n {
      LinkIsChain(t, n, s, FirstFree(t, n, 2));
    }
  }

  lemma ExtendedDone(t: seq<u16>, n: nat, s: seq<u16>, needed: nat)
    requires 2 <= n <= |t| && n <= EOC && IsChain(t, n, s) && |s| >= needed
    ensures Extended(t, n, s, needed) == (t, s)
  {
  }

  /** Extension keeps every other chain, and all chains apart. */
  lemma {:induction false} ExtendKeepsWellFormed(t: seq<u16>, n: nat, m: map<u16, seq<u16>>, c: u16, needed: nat)
    requires 2 <= n <= |t| && n <= EOC && WellFormed(t, n, m) && c in m
    ensures var (u, s) := Extended(t, n, m[c], needed);
            WellFormed(u, n, m[c := s])
    decreases needed - |m[c]|
  {
    var s := m[c];
    var d := FirstFree(t, n, 2);
    if |s| >= needed || d == n {
      assert m[c := s] == m;
    } else {
      LinkKeepsWellFormed(t, n, m, c, d);
      LinkIsChain(t, n, s, d);
      var u, m1 := Linked(t, s, d), m[c := s + [d]];
      ExtendKeepsWellFormed(u, n, m1, c, needed);
      var r := Extended(u, n, s + [d], needed).1;
      assert m1[c := r] == m[c := r];
    }
  }

  /** Extension uses up exactly the clusters it adds, never adds more than asked, and
      stops short of `needed` only on a full volume. */
  lemma {:induction false} ExtendUsesFree(t: seq<u16>, n: nat, s: seq<u16>, needed: nat)
    requires 2 <= n <= |t| && n <= EOC && IsChain(t, n, s)
    ensures var (u, r) := Extended(t, n, s, needed);
            && FreeSet(u, n) + Elements(r) == FreeSet(t, n) + Elements(s)
            && (|r| < needed ==> FreeSet(u, n) == {})
            && (|r| > |s| ==> |r| <= needed)
    decreases needed - |s|
  {
    var d := FirstFree(t, n, 2);
    if |s| >= needed {
    } else if d == n {
      assert FreeSet(t, n) == {};
    } else {
      LinkIsChain(t, n, s, d);
      LinkedFree(t, n, s, d);
      ExtendUsesFree(Linked(t, s, d), n, s + [d], needed);
    }
  }

  // A chain of `have` clusters grown towards `needed` with `free` clusters to take.
  function LengthAfter(have: nat, free: nat, needed: nat): (r: nat) {
    if needed <= have then have else if needed <= have + free then needed else have + free
  }

  /** How long the extended chain is, from the table before. */
  lemma {:induction false} ExtendedLength(t: seq<u16>, n: nat, s: seq<u16>, needed: nat)
    requires 2 <= n <= |t| && n <= EOC && IsChain(t, n, s)
    ensures |Extended(t, n, s, needed).1| == LengthAfter(|s|, |FreeSet(t, n)|, needed)
    decreases needed - |s|
  {
    assert |s| > 0 && s[|s| - 1] < |t|;
    hide IsChain, Linked;
    var d := FirstFree(t, n, 2);
    if |s| < needed {
      ExtendedStep(t, n, s, needed);
      if d == n {
        assert FreeSet(t, n) == {};
      } else {
        LinkedTakes(t, n, s, d);
        ExtendedLength(Linked(t, s, d), n, s + [d], needed);
      }
    } else {
      ExtendedDone(t, n, s, needed);
    }
  }

  lemma LinkedTakes(t: seq<u16>, n: nat, s: seq<u16>, d: u16)
    requires n <= |t| && IsChain(t, n, s)
    requires 2 <= d < n && t[d] == FREE
    ensures |FreeSet(Linked(t, s, d), n)| == |FreeSet(t, n)| - 1
  {
    assert FreeSet(Linked(t, s, d), n) == FreeSet(t, n) - {d};
    assert d in FreeSet(t, n);
  }

  lemma LinkedFree(t: seq<u16>, n: nat, s: seq<u16>, d: u16)
    requires n <= |t| && IsChain(t, n, s)
    requires 2 <= d < n && t[d] == FREE
    ensures FreeSet(Linked(t, s, d), n) + Elements(s + [d]) == FreeSet(t, n) + Elements(s)
  {
    assert FreeSet(Linked(t, s, d), n) == FreeSet(t, n) - {d};
    assert d in FreeSet(t, n);
    ElementsSnoc(s, d);
  }

  lemma ElementsSnoc(s: seq<u16>, d: u16)
    ensures Elements(s + [d]) == Elements(s) + {d}
  {
    var r := s + [d];
    forall x | x in Elements(s) + {d}
      ensures x in Elements(r)
    {
      if x == d {
        assert r[|s|] == d;
      } else {
        var i :| 0 <= i < |s| && s[i] == x;
        assert r[i] == x;
      }
    }
  }

  // ---------------------------------------------------------------- in place

  class ClusterTable {
    const table: array<u16>
    const n: nat       // total_clusters + 2
    var dirty: bool

    ghost predicate Valid()
    {
      2 <= n <= table.Length && n < EOC
    }

    ghost function T(): seq<u16>
      reads table
    {
      table[..]
    }

    constructor (contents: array<u16>, totalClusters: nat)
      requires totalClusters + 2 <= contents.Length && totalClusters + 2 < EOC
      ensures Valid() && table == contents && n == totalClusters + 2 && !dirty
    {
      table, n, dirty := contents, totalClusters + 2, false;
    }

    method GetNext(c: u16) returns (r: u16)
      requires Valid()
      ensures r == Next(T(), n, c)
    {
      if c >= n {
        return EOC;
      }
      return table[c];
    }

    method SetCluster(c: u16, v: u16)
      requires Valid()
      modifies this, table
      ensures T() == Put(old(T()), n, c, v)
      ensures dirty == (old(dirty) || c < n)
    {
      if c >= n {
        return;
      }
      table[c] := v;
      dirty := true;
    }

    method AllocCluster() returns (c: u16)
      requires Valid()
      modifies this, table
      ensures var d := FirstFree(old(T()), n, 2);
              if d < n then c == d && T() == old(T())[d := EOC] && dirty
              else c == 0 && T() == old(T()) && dirty == old(dirty)
    {
      var i: u16 := 2;
      while i < n
        invariant 2 <= i <= n
        invariant T() == old(T()) && dirty == old(dirty)
        invariant FirstFree(T(), n, 2) == FirstFree(T(), n, i)
      {
        if table[i] == FREE {
          SetCluster(i, EOC);
          return i;
        }
        i := i + 1;
      }
      return 0;
    }

    method FreeClusterChain(first: u16)
      requires Valid()
      modifies this, table
      ensures T() == FreeFrom(old(T()), n, first)
      ensures dirty == (old(dirty) || (!Stops(first) && first < n))
    {
      var cluster := first;
      ghost var started := false;
      while !Stops(cluster)
        invariant FreeFrom(T(), n, cluster) == FreeFrom(old(T()), n, first)
        invariant !started ==> cluster == first && dirty == old(dirty)
        invariant started ==> !Stops(first) && dirty == (old(dirty) || first < n)
        invariant started && first >= n ==> Stops(cluster)
        decreases UsedCount(T()), if Stops(cluster) then 0 else 1
      {
        PutFreeMeasure(T(), n, cluster);
        var next := GetNext(cluster);
        SetCluster(cluster, FREE);
        cluster := next;
        started := true;
      }
    }

    // Allocate a cluster and link it behind the last cluster of the chain r.
    method AppendCluster(last: u16, ghost r: seq<u16>) returns (next: u16)
      requires Valid() && IsChain(T(), n, r) && last == r[|r| - 1]
      modifies this, table
      ensures var d := FirstFree(old(T()), n, 2);
              if d == n then next == 0 && T() == old(T()) && dirty == old(dirty)
              else next == d && T() == Linked(old(T()), r, d) && IsChain(T(), n, r + [d]) && dirty
    {
      ghost var t := T();
      next := AllocCluster();
      if next != 0 {
        LinkIsChain(t, n, r, next);
        SetCluster(last, next);
        assert T() == Linked(t, r, next);
      }
    }

    /** The chain-extension loop of fat_node_write, on the chain s of `first`. */
    method ExtendChain(first: u16, needed: nat, ghost s: seq<u16>) returns (ghost r: seq<u16>)
      requires Valid() && IsChain(T(), n, s) && s[0] == first
      modifies this, table
      ensures (T(), r) == Extended(old(T()), n, s, needed)
      ensures dirty == (old(dirty) || |r| > |s|)
    {
      assert |s| > 0;
      hide IsChain, FirstFree, Linked, Extended;
      var cluster := first;
      var current: nat := 1;
      r := s;
      while current < needed
        invariant IsChain(T(), n, r) && 1 <= current <= |r| && cluster == r[current - 1]
        invariant Extended(T(), n, r, needed) == Extended(old(T()), n, s, needed)
        invariant |s| <= |r| && dirty == (old(dirty) || |r| > |s|)
      {
        var next := GetNext(cluster);
        ChainNext(T(), n, r, current - 1);
        if next >= EOC {
          ExtendedStep(T(), n, r, needed);
          next := AppendCluster(cluster, r);
          if next == 0 {
            return;
          }
          r := r + [next];
        }
        cluster := next;
        current := current + 1;
      }
      ExtendedDone(T(), n, r, needed);
    }
  }
}
