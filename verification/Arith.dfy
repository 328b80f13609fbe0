/** Arithmetic facts shared by the other modules. */
module Arith {

  function Min(a: int, b: int): int { if a <= b then a else b }
  function Max(a: int, b: int): int { if a >= b then a else b }

  function MinReal(a: real, b: real): real { if a <= b then a else b }
  function MaxReal(a: real, b: real): real { if a >= b then a else b }

  function DivCeil(a: nat, b: nat): nat
    requires b > 0
  {
    (a + b - 1) / b
  }

  lemma ModuloUnique(d: nat, k: nat, r: nat)
    requires r < d
    ensures (d * k + r) % d == r
  {
    var v := d * k + r;
    assert v == d * (v / d) + v % d;
    var diff := v / d - k;
    assert d * diff == r - v % d by { assert d * (v / d) - d * k == d * diff; }
    MultipleIsFar(d, diff);
  }

  lemma MultipleIsFar(d: nat, k: int)
    ensures k >= 1 ==> d * k >= d
    ensures k <= -1 ==> d * k <= -(d as int)
  {
    if k >= 1 {
      assert d * k == d + d * (k - 1);
    } else if k <= -1 {
      assert d * k == d * (k + 1) - d;
    }
  }

  lemma DivCeilStep(a: nat, b: nat)
    requires b > 0 && a > b
    ensures DivCeil(a, b) == 1 + DivCeil(a - b, b)
  {
    var x := a - 1;
    var q, r := x / b, x % b;
    assert x + b == b * (q + 1) + r;
    QuotientUnique(b, q + 1, r);
  }

  lemma QuotientUnique(d: nat, q: nat, r: nat)
    requires r < d
    ensures (d * q + r) / d == q
  {
    ModuloUnique(d, q, r);
    var v := d * q + r;
    assert v == d * (v / d) + v % d;
    assert d * (v / d - q) == 0;
    MultipleIsFar(d, v / d - q);
  }

  lemma DivCeilPositive(a: nat, b: nat)
    requires a > 0 && b > 0
    ensures DivCeil(a, b) > 0
  {
    if a > b {
      DivCeilStep(a, b);
    } else {
      QuotientUnique(b, 1, a - 1);
    }
  }
}
