/**
 The bubble sort of ai_show_suggestions in ai/ai.c: matches by falling score, in place.
 */
module Suggest {

  datatype Match = Match(cmd: string, score: nat)

  // No score before position from .. is below one at or behind it.
  ghost predicate Settled(m: seq<Match>, from: nat) {
    forall s, t :: 0 <= s < t < |m| && from <= t ==> m[s].score >= m[t].score
  }

  ghost predicate AtLeast(m: seq<Match>, n: nat, b: nat)
    requires n <= |m|
  {
    forall t :: 0 <= t < n ==> m[t].score >= b
  }

  // The same matches in another order.
  ghost predicate Permuted(a: seq<Match>, b: seq<Match>) {
    |a| == |b| && multiset(a) == multiset(b)
  }

  method Swap(m: array<Match>, j: nat)
    requires j + 1 < m.Length
    modifies m
    ensures m[..] == old(m[..])[j := old(m[j + 1])][j + 1 := old(m[j])] && Permuted(old(m[..]), m[..])
  {
    m[j], m[j + 1] := m[j + 1], m[j];
  }

  // One pass of the inner loop: the smallest score of the first k + 1 ends up at k.
  method Pass(m: array<Match>, k: nat, ghost b: nat)
    requires k < m.Length && AtLeast(m[..], k + 1, b)
    modifies m
    ensures Permuted(old(m[..]), m[..]) && AtLeast(m[..], k + 1, b) && AtLeast(m[..], k + 1, m[k].score)
    ensures m[..][k + 1..] == old(m[..])[k + 1..]
  {
    hide Permuted, AtLeast;
    Same(m[..]);
    First(m[..]);
    var j: nat := 0;
    while j < k
      invariant j <= k && Permuted(old(m[..]), m[..]) && AtLeast(m[..], k + 1, b) && AtLeast(m[..], j + 1, m[j].score)
      invariant m[..][k + 1..] == old(m[..])[k + 1..]
    {
      ghost var a := m[..];
      Bubbles(a, j, k, b);
      if m[j].score < m[j + 1].score {
        Swap(m, j);
        Through(old(m[..]), a, m[..]);
      }
      j := j + 1;
    }
  }

  lemma First(a: seq<Match>)
    requires |a| > 0
    ensures AtLeast(a, 1, a[0].score)
  {
  }

  // One turn of the inner loop, swapping or not.
  lemma Bubbles(a: seq<Match>, j: nat, k: nat, b: nat)
    requires j < k < |a| && AtLeast(a, k + 1, b) && AtLeast(a, j + 1, a[j].score)
    ensures a[j].score >= a[j + 1].score ==> AtLeast(a, j + 2, a[j + 1].score)
    ensures var r := a[j := a[j + 1]][j + 1 := a[j]];
            && AtLeast(r, k + 1, b) && r[k + 1..] == a[k + 1..]
            && (a[j].score < a[j + 1].score ==> AtLeast(r, j + 2, r[j + 1].score))
  {
  }

  /** The sort: the matches in another order, scores falling, so the first three are the
      three best. */
  method SortMatches(m: array<Match>)
    requires m.Length > 0
    modifies m
    ensures Permuted(old(m[..]), m[..]) && Settled(m[..], 0)
  {
    hide Permuted;
    Same(m[..]);
    var i: nat := 0;
    while i < m.Length - 1
      invariant i <= m.Length - 1 && Permuted(old(m[..]), m[..]) && Settled(m[..], m.Length - i)
    {
      ghost var a, from := m[..], m.Length - i;
      ghost var b := if from < m.Length then m[from].score else 0;
      Pass(m, m.Length - i - 1, b);
      Through(old(m[..]), a, m[..]);
      Settles(a, m[..], from, b);
      i := i + 1;
    }
  }

  lemma Same(a: seq<Match>)
    ensures Permuted(a, a)
  {
  }

  lemma Through(a: seq<Match>, b: seq<Match>, c: seq<Match>)
    requires Permuted(a, b) && Permuted(b, c)
    ensures Permuted(a, c)
  {
  }

  lemma Settles(a: seq<Match>, m: seq<Match>, from: nat, b: nat)
    requires 0 < from <= |a| == |m| && Settled(a, from) && m[from..] == a[from..] && AtLeast(m, from, b)
             && AtLeast(m, from, m[from - 1].score)
    requires from < |a| ==> b == a[from].score
    ensures Settled(m, from - 1)
  {
    assert forall t :: from <= t < |m| ==> m[t] == m[from..][t - from] == a[from..][t - from] == a[t];
  }
}
