/**
 Single bits of a machine word: what `w & (1 << i)`, `w | (1 << i)` and `w & ~(1 << i)`
 do in mm/pmm.c, by arithmetic on the word's value.
 */
module Bits {

  // w & (1 << i) is non-zero
  predicate BitOf(w: nat, i: nat) {
    if i == 0 then w % 2 == 1 else BitOf(w / 2, i - 1)
  }

  // w | (1 << i)
  function SetIn(w: nat, i: nat): nat {
    if i == 0 then w / 2 * 2 + 1 else 2 * SetIn(w / 2, i - 1) + w % 2
  }

  // w & ~(1 << i)
  function ClearIn(w: nat, i: nat): nat {
    if i == 0 then w / 2 * 2 else 2 * ClearIn(w / 2, i - 1) + w % 2
  }

  lemma {:induction false} SetOneBit(w: nat, i: nat, j: nat)
    ensures BitOf(SetIn(w, i), j) <==> i == j || BitOf(w, j)
  {
    if i > 0 && j > 0 {
      SetOneBit(w / 2, i - 1, j - 1);
      assert SetIn(w, i) / 2 == SetIn(w / 2, i - 1);
    } else if i == 0 && j > 0 {
      assert SetIn(w, i) / 2 == w / 2;
    }
  }

  lemma {:induction false} ClearOneBit(w: nat, i: nat, j: nat)
    ensures BitOf(ClearIn(w, i), j) <==> i != j && BitOf(w, j)
  {
    if i > 0 && j > 0 {
      ClearOneBit(w / 2, i - 1, j - 1);
      assert ClearIn(w, i) / 2 == ClearIn(w / 2, i - 1);
    } else if i == 0 && j > 0 {
      assert ClearIn(w, i) / 2 == w / 2;
    }
  }

  // The word with the lowest n bits set; Ones(32) is 0xFFFFFFFF.
  function Ones(n: nat): nat {
    if n == 0 then 0 else 2 * Ones(n - 1) + 1
  }

  lemma {:induction false} OnesBits(n: nat, i: nat)
    requires i < n
    ensures BitOf(Ones(n), i)
  {
    if i > 0 {
      OnesBits(n - 1, i - 1);
      assert Ones(n) / 2 == Ones(n - 1);
    }
  }
}
