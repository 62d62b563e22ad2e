/** The bitwise operators that the sources apply to bigints, on natural numbers. */
module Bits {
  import opened Merkle

  function And(x: nat, y: nat): nat
    decreases x
  {
    if x == 0 || y == 0 then 0 else 2 * And(x / 2, y / 2) + if x % 2 == 1 && y % 2 == 1 then 1 else 0
  }

  function Or(x: nat, y: nat): nat
    decreases x, y
  {
    if x == 0 then y else if y == 0 then x
    else 2 * Or(x / 2, y / 2) + if x % 2 == 1 || y % 2 == 1 then 1 else 0
  }

  /** Masking with k ones keeps the remainder of the division by 2^k. */
  lemma {:induction false} AndMask(x: nat, k: nat, q: nat, r: nat)
    requires x == Pow2(k) * q + r && r < Pow2(k)
    ensures And(x, Pow2(k) - 1) == r
    decreases k
  {
    if k > 0 && x > 0 {
      var p := Pow2(k - 1);
      assert Pow2(k) * q == 2 * (p * q);
      AndMask(x / 2, k - 1, q, r / 2);
      assert (Pow2(k) - 1) / 2 == p - 1;
    }
  }

  /** Shifting left and or-ing a value that fits the freed bits adds it. */
  lemma {:induction false} OrLow(x: nat, y: nat, k: nat)
    requires y < Pow2(k)
    ensures Or(x * Pow2(k), y) == x * Pow2(k) + y
    decreases k
  {
    if k > 0 {
      var p := Pow2(k - 1);
      assert x * Pow2(k) == 2 * (x * p);
      OrLow(x, y / 2, k - 1);
    }
  }
}
