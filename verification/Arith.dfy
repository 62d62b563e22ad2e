/** Powers, and division with a variable divisor, which the solver needs spelled out. */
module Arith {

  function Pow(b: nat, n: nat): nat {
    if n == 0 then 1 else b * Pow(b, n - 1)
  }

  lemma {:induction false} PowPositive(b: nat, n: nat)
    requires b > 0
    ensures Pow(b, n) > 0
  {
    if n > 0 { PowPositive(b, n - 1); }
  }

  lemma {:induction false} PowAdd(b: nat, m: nat, n: nat)
    ensures Pow(b, m + n) == Pow(b, m) * Pow(b, n)
    decreases n
  {
    if n > 0 {
      PowAdd(b, m, n - 1);
      calc {
        Pow(b, m + n);
        b * Pow(b, m + (n - 1));
        b * (Pow(b, m) * Pow(b, n - 1));
        Pow(b, m) * (b * Pow(b, n - 1));
      }
    }
  }

  lemma DivMod(v: nat, b: nat)
    requires b > 0
    ensures v / b * b + v % b == v && v % b < b
  {}

  lemma DivLess(v: nat, b: nat, p: nat)
    requires b > 0
    ensures v / b < p <==> v < b * p
  {
    var q := v / b;
    assert v == b * q + v % b;
    if q < p {
      assert b * (q + 1) <= b * p;
    } else {
      assert b * p <= b * q;
    }
  }

  lemma Horner(x: nat, p: nat, y: nat, b: nat, d: nat)
    ensures (x * p + y) * b + d == x * (b * p) + (y * b + d)
  {
    Rotate(x, p, b);
  }

  lemma Rotate(x: nat, p: nat, b: nat)
    ensures x * p * b == x * (b * p)
  {}

  lemma MulStep(m: nat, a: nat, b: nat)
    requires a < b
    ensures m * a + m <= m * b
  {
    var d := b - a - 1;
    assert m * (a + 1 + d) == m * a + m + m * d;
  }
}
