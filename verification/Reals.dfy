/** Small facts of real arithmetic. */
module Reals {
  lemma RealProduct(p: nat, q: nat)
    ensures (p * q) as real == p as real * q as real
  {
  }

  lemma Cancel(p: nat, q: nat)
    requires p > 0
    ensures 1.0 / p as real * (q as real * p as real) == q as real
  {
  }

  lemma Cancel2(p: nat, q: nat)
    requires p > 0 && q > 0
    ensures 1.0 / (p as real * q as real) * q as real == 1.0 / p as real
  {
  }
}
