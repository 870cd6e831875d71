/** Facts about integer multiplication and division used by the index arithmetic. */
module Arith {

  lemma MulAtLeast(d: int, b: int)
    ensures d >= 1 && b >= 0 ==> d * b >= b
  {
  }

  /** Integer division is determined by quotient and remainder. */
  lemma DivUnique(a: int, b: int, q: int, r: int)
    ensures 1 <= b && 0 <= r < b && a == q * b + r ==> a / b == q
  {
    if 1 <= b && 0 <= r < b && a == q * b + r {
      var q', r' := a / b, a % b;
      assert (q - q') * b == r' - r;
      MulAtLeast(q - q', b);
      MulAtLeast(q' - q, b);
    }
  }

  lemma DivStep(a: int, b: int)
    requires 0 <= a && 1 <= b
    ensures a < b ==> a / b == 0
    ensures b <= a ==> (a - b) / b + 1 == a / b
  {
    DivUnique(a, b, 0, a);
    var q, r := (a - b) / b, (a - b) % b;
    DivUnique(a, b, q + 1, r);
  }

  lemma MulMonotone(i: int, j: int, m: int)
    ensures 0 <= i <= j && 0 <= m ==> i * m <= j * m
  {
    if 0 <= i <= j && 0 <= m {
      MulAtLeast(j - i, m);
      assert j * m - i * m == (j - i) * m;
    }
  }

  lemma DivMonotone(a: int, b: int, d: int)
    ensures 0 <= a <= b && 1 <= d ==> a / d <= b / d
  {
    if 0 <= a <= b && 1 <= d {
      var qa, qb := a / d, b / d;
      assert (qa - qb) * d == (a - a % d) - (b - b % d);
      MulAtLeast(qa - qb, d);
    }
  }
}
