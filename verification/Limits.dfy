// Small things that several parts share.
module Limits {

  function Max(a: int, b: int): int {
    if a > b then a else b
  }

  function Min(a: int, b: int): int {
    if a < b then a else b
  }

  // ----- division by a positive number has one quotient and one rest -----

  lemma Times(a: nat, b: nat, radix: nat)
    requires a < b
    ensures a * radix + radix <= b * radix
  {
    assert (a + 1) * radix <= b * radix;
  }

  lemma OneDivision(radix: nat, p: nat, e: nat, q: nat, d: nat)
    requires e < radix && d < radix && p * radix + e == q * radix + d
    ensures p == q && e == d
  {
    if q > p {
      Times(p, q, radix);
    } else if q < p {
      Times(q, p, radix);
    }
  }

  lemma OnlyRest(v: nat, radix: nat, q: nat, d: nat)
    requires d < radix && v == q * radix + d
    ensures v % radix == d
  {
    OneDivision(radix, v / radix, v % radix, q, d);
  }
}

// What the kernel's files agree on: the number of process groups and the error value.
module KernelLimits {

  const MAX_PROCESS_GROUPS := 3
  const FAILURE := -1
}
