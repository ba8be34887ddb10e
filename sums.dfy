/** Sums of reals, shared by the mean imputer and the error metrics. */
module Sums {

  /** The sum of some values. */
  function Sum(xs: seq<real>): real {
    if xs == [] then 0.0 else xs[0] + Sum(xs[1..])
  }

  /** `q` added to itself `n` times: `n * q` without a product of unknowns,
      which keeps the arithmetic of the sums above linear. */
  function Times(n: nat, q: real): real {
    if n == 0 then 0.0 else Times(n - 1, q) + q
  }

  lemma {:induction false} TimesIsProduct(n: nat, q: real, nr: real)
    requires nr == n as real
    ensures Times(n, q) == nr * q
  {
    if n > 0 {
      TimesIsProduct(n - 1, q, nr - 1.0);
    }
  }
}
