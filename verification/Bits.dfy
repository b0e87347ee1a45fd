// Bitwise or on the non-negative integers.

module Bits {
  import opened ModArith

  // Bitwise or of two non-negative numbers.
  function BitOr(a: nat, b: nat): nat {
    if a == 0 && b == 0 then 0
    else 2 * BitOr(a / 2, b / 2) + (if a % 2 == 1 || b % 2 == 1 then 1 else 0)
  }

  lemma {:induction false} BitOrZero(a: nat)
    ensures BitOr(a, 0) == a && BitOr(0, a) == a
  {
    if a != 0 { BitOrZero(a / 2); }
  }

  // Or-ing in bits above every set bit is addition.
  lemma {:induction false} BitOrDisjoint(a: nat, b: nat, i: nat)
    requires a < Exp2(i)
    ensures b * Exp2(i) >= 0
    ensures BitOr(a, b * Exp2(i)) == a + b * Exp2(i)
    decreases i
  {
    if i == 0 {
      assert a == 0 && b * Exp2(0) == b;
      BitOrZero(b);
    } else {
      var h := b * Exp2(i - 1);
      assert Exp2(i) == 2 * Exp2(i - 1);
      assert b * Exp2(i) == 2 * h;
      BitOrDisjoint(a / 2, b, i - 1);
      if a == 0 {
        BitOrZero(b * Exp2(i));
      }
    }
  }
}
