/** Facts about multiplication and division by a positive number. */
module Arith {

  lemma MulMonotone(d: nat, p: nat, q: nat)
    requires p <= q
    ensures d * p <= d * q
  {}

  lemma MulOrder(d: nat, p: nat, q: nat)
    ensures p <= q ==> d * p <= d * q
    ensures p > q ==> d * p >= d * q + d
  {
    if p > q {
      MulMonotone(d, q + 1, p);
      MulNext(d, q);
    }
  }

  lemma MulNext(d: nat, p: nat)
    ensures d * (p + 1) == d * p + d
  {}

  lemma DivMod(x: nat, d: nat)
    requires d >= 1
    ensures x == d * (x / d) + x % d && x % d < d
  {}

  /** Quotient and remainder are determined by the decomposition. */
  lemma DivModUnique(x: nat, d: nat, q: nat, r: nat)
    requires d >= 1 && r < d && x == d * q + r
    ensures x / d == q && x % d == r
  {
    var p := x / d;
    DivMod(x, d);
    MulOrder(d, p, q);
    MulOrder(d, q, p);
  }

  lemma DivMonotone(x: nat, y: nat, d: nat)
    requires d >= 1 && x <= y
    ensures x / d <= y / d
  {
    var p, q := x / d, y / d;
    DivMod(x, d);
    DivMod(y, d);
    MulOrder(d, p, q);
  }
}
