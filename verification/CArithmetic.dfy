/** C's integer operators where they differ from Dafny's, and the few facts about
    products and quotients that the arithmetic proofs share. */
module CArithmetic {

  type Byte = x: nat | x < 256

  const US_PER_MINUTE := 60_000_000

  /** C's `/` for a positive divisor: the quotient is truncated toward zero. */
  function TruncDiv(a: int, b: int): (q: int)
    requires 0 < b
    ensures 0 <= a ==> 0 <= q && q * b <= a < q * b + b
    ensures a <= 0 ==> q <= 0 && q * b - b < a <= q * b
  {
    if 0 <= a then a / b else -(-a / b)
  }

  function Abs(x: int): nat {
    if x < 0 then -x else x
  }

  function Min(x: int, y: int): int {
    if x < y then x else y
  }

  lemma MulMonotone(x: int, y: int, factor: int)
    requires x <= y && 0 <= factor
    ensures x * factor <= y * factor
  {
  }

  lemma MulDifference(x: int, m: int, n: int, bound: int)
    requires Abs(x) <= bound && m <= n
    ensures Abs(x * n - x * m) <= bound * (n - m)
  {
    MulBound(x, bound, n - m);
    assert x * n - x * m == x * (n - m);
  }

  lemma MulBound(x: int, bound: int, m: nat)
    requires Abs(x) <= bound
    ensures Abs(x * m) <= bound * m
  {
    MulMonotone(x, bound, m);
    MulMonotone(-bound, x, m);
  }

  /** A quotient is known by the interval its multiple lies in. */
  lemma QuotientUnique(a: int, b: int, q: int)
    requires 0 < b && q * b <= a < q * b + b
    ensures a / b == q
  {
    var p := a / b;
    assert p * b <= a < p * b + b;
    if p < q {
      MulMonotone(p + 1, q, b);
    } else if q < p {
      MulMonotone(q + 1, p, b);
    }
  }
}
