/** Facts about division that the other modules need and the verifier does not find by itself. */
module Arithmetic {
  lemma MultipleBelow(k: int, m: int)
    requires m > 0 && -m < k * m < m
    ensures k == 0
  {
  }

  /** Quotient and remainder are unique. */
  lemma DivUnique(x: nat, m: nat, q: int, r: nat)
    requires m > 0 && x == q * m + r && r < m
    ensures x / m == q && x % m == r
  {
    var k := x / m - q;
    assert k * m == (x / m) * m - q * m == r - x % m;
    MultipleBelow(k, m);
  }

  lemma DivPlusOne(x: nat, m: nat)
    requires m > 0
    ensures (x + m) / m == x / m + 1
  {
    var q, r := x / m, x % m;
    assert x + m == (q + 1) * m + r;
    DivUnique(x + m, m, q + 1, r);
  }

  lemma DivSmall(x: nat, m: nat)
    requires x < m
    ensures x / m == 0
  {
  }

  lemma MultipleOf(q: nat, m: nat)
    requires m > 0
    ensures (q * m) % m == 0
  {
    DivUnique(q * m, m, q, 0);
  }

  lemma AtLeastOne(k: int, m: int)
    requires m > 0 && k * m > 0
    ensures k * m >= m
  {
  }

  /** Different multiples of `m` are at least `m` apart. */
  lemma MultiplesApart(a: nat, b: nat, m: nat)
    requires m > 0 && a * m < b * m
    ensures a * m + m <= b * m
  {
    assert (b - a) * m == b * m - a * m;
    AtLeastOne(b - a, m);
  }
}
