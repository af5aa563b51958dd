/** Division and multiplication facts used wherever a layout divides by a variable size. */
module Arith {

  lemma MulMono(a: int, b: int, d: int)
    requires a <= b && 0 <= d
    ensures a * d <= b * d
  {
  }

  lemma MulStep(a: int, d: int)
    ensures (a + 1) * d == a * d + d
  {
  }

  lemma DivUnique(x: int, d: int, q: int)
    requires d > 0 && q * d <= x < q * d + d
    ensures x / d == q && x % d == x - q * d
  {
    var p := x / d;
    assert x == p * d + x % d;
    if p < q {
      MulMono(p + 1, q, d);
      MulStep(p, d);
    } else if p > q {
      MulMono(q + 1, p, d);
      MulStep(q, d);
    }
  }

  function Quot(a: nat, b: nat): (q: nat)
    requires b > 0
  {
    QuotRem(a, b);
    a / b
  }

  function Rem(a: nat, b: nat): (r: nat)
    requires b > 0
    ensures r < b
  {
    a % b
  }

  lemma QuotRem(a: nat, b: nat)
    requires b > 0
    ensures a / b >= 0 && a == a / b * b + a % b
  {
  }
}
