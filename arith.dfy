/**
 * Facts about products with a variable factor, which the solver does not
 * find on its own in a large context.
 */
module Arith {
  lemma MulAdd(n: nat, a: nat, b: nat)
    ensures n * (a + b) == n * a + n * b
  {
  }

  lemma MulMono(n: nat, a: nat, b: nat)
    requires a <= b
    ensures n * a <= n * b
  {
    MulAdd(n, a, b - a);
  }
}
