/** The few facts about products, quotients and remainders that the address maps need. */
module Arith {

  lemma MulStep(a: int, m: int)
    ensures (a + 1) * m == a * m + m
  {
  }

  lemma {:induction false} MulMono(a: int, b: int, m: nat)
    requires a <= b
    ensures a * m <= b * m
    decreases b - a
  {
    if a < b {
      MulMono(a, b - 1, m);
      MulStep(b - 1, m);
    }
  }

  /** A number with quotient `q` and remainder `r` has just that quotient and remainder. */
  lemma DivModUnique(x: nat, q: nat, r: nat, m: nat)
    requires m > 0 && r < m && x == q * m + r
    ensures x / m == q && x % m == r
  {
    var q' := x / m;
    DivModSplit(x, m);
    if q' < q {
      MulMono(q' + 1, q, m);
      MulStep(q', m);
    } else if q < q' {
      MulMono(q + 1, q', m);
      MulStep(q, m);
    }
  }

  lemma DivModSplit(x: nat, m: nat)
    requires m > 0
    ensures x == (x / m) * m + x % m && 0 <= x % m < m
  {
  }

  lemma DivLess(x: nat, m: nat, k: nat)
    requires m > 0
    ensures x / m < k <==> x < k * m
  {
    DivModSplit(x, m);
    var q := x / m;
    MulStep(q, m);
    if q < k {
      MulMono(q + 1, k, m);
    } else {
      MulMono(k, q, m);
    }
  }
}
