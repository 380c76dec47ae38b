/** Small facts of integer arithmetic that the solver does not find by itself. */
module Arith {

  /** Multiplying by a non-negative factor keeps order. */
  lemma {:induction false} MulMono(a: int, b: int, c: nat)
    requires a <= b
    ensures a * c <= b * c
  {
  }

  /** Multiplying by a positive factor keeps strict order. */
  lemma {:induction false} MulLt(a: int, b: int, c: int)
    requires a < b && c > 0
    ensures a * c < b * c
  {
  }

  /** Strict order of multiples of a positive factor is order of the multiplicands. */
  lemma {:induction false} LessByMul(p: int, q: int, d: int)
    requires d > 0 && p * d < q * d
    ensures p < q
  {
    if q <= p {
      MulMono(q, p, d);
    }
  }

  /** Division by a positive divisor keeps order. */
  lemma {:induction false} DivMono(a: int, b: int, d: int)
    requires a <= b && d > 0
    ensures a / d <= b / d
  {
    var qa, qb := a / d, b / d;
    assert qa * d <= a;
    assert b < qb * d + d;
    assert qa * d < (qb + 1) * d;
    LessByMul(qa, qb + 1, d);
  }
}
