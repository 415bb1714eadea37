/** Exact integer model of Python's built-in `round` applied to a quotient of
    nonnegative integers: round to the nearest integer, ties to the even one. */
module Rounding {

  function Dist(a: int, b: int): nat
  {
    if a <= b then b - a else a - b
  }

  /** `q` is a nearest integer to `n / d`, and on an exact tie it is the even one. */
  ghost predicate IsRoundHalfEven(n: nat, d: nat, q: nat)
    requires d > 0
  {
    && 2 * Dist(n, q * d) <= d
    && (2 * Dist(n, q * d) == d ==> q % 2 == 0)
  }

  lemma MulAdd(q: int, k: int, d: int)
    ensures (q + k) * d == q * d + k * d
  {
  }

  lemma MulMonotone(a: nat, b: nat, d: nat)
    requires a <= b
    ensures a * d <= b * d
  {
  }

  /** The distances from `n` to the multiples of `d` just below and above it. */
  lemma Neighbours(n: nat, d: nat)
    requires d > 0
    ensures Dist(n, (n / d) * d) == n % d
    ensures Dist(n, (n / d + 1) * d) == d - n % d
  {
    var q0, r := n / d, n % d;
    assert n == q0 * d + r;
    MulAdd(q0, 1, d);
  }

  /** `round(n / d)` for nonnegative integers, computed with integer division. */
  function RoundHalfEven(n: nat, d: nat): (q: nat)
    requires d > 0
    ensures IsRoundHalfEven(n, d, q)
  {
    Neighbours(n, d);
    var q0, r := n / d, n % d;
    if 2 * r < d then q0
    else if 2 * r > d then q0 + 1
    else if q0 % 2 == 0 then q0
    else q0 + 1
  }

  /** Two different integers that are both nearest to `n / d` are neighbours,
      and `n / d` lies exactly half-way between them. */
  lemma NearestAreTied(n: nat, d: nat, q: nat, p: nat)
    requires d > 0 && q < p
    requires 2 * Dist(n, q * d) <= d && 2 * Dist(n, p * d) <= d
    ensures p == q + 1
    ensures 2 * Dist(n, q * d) == d && 2 * Dist(n, p * d) == d
  {
    var a, b := q * d, p * d;
    MulAdd(q, 1, d);
    MulMonotone(q + 1, p, d);
    assert a + d <= b;
    if p >= q + 2 {
      MulAdd(q, 2, d);
      MulMonotone(q + 2, p, d);
      assert false;
    }
  }

  /** The rounding rule pins the result down: any integer that is nearest to
      `n / d` and even on a tie is the one `RoundHalfEven` returns. */
  lemma RoundHalfEvenUnique(n: nat, d: nat, q: nat)
    requires d > 0
    requires IsRoundHalfEven(n, d, q)
    ensures q == RoundHalfEven(n, d)
  {
    var p := RoundHalfEven(n, d);
    if q < p {
      NearestAreTied(n, d, q, p);
    } else if p < q {
      NearestAreTied(n, d, p, q);
    }
  }

  /** Ties go to the even neighbour: 0.5 rounds to 0, 1.5 and 2.5 round to 2. */
  lemma TiesRoundToEven()
    ensures RoundHalfEven(60, 120) == 0
    ensures RoundHalfEven(180, 120) == 2
    ensures RoundHalfEven(300, 120) == 2
    ensures RoundHalfEven(1200, 120) == 10
  {
  }
}
