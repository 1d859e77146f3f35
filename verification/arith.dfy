/** Integer facts behind Python's `int(a / b)` on exact rationals. */
module Arith {

  /** `int(a / b)` for a positive divisor: the quotient truncated toward zero
      (Python's `int()` truncates, unlike Dafny's Euclidean `/`). */
  function TruncDiv(a: int, b: int): (q: int)
    requires b > 0
    ensures a >= 0 ==> q >= 0
    ensures a < 0 ==> q <= 0
  {
    if a >= 0 then a / b else -((-a) / b)
  }

  /** The truncated quotient is the integer between zero and the exact
      quotient `a / b` that lies within one of it. */
  lemma TruncDivBounds(a: int, b: int)
    requires b > 0
    ensures a >= 0 ==> TruncDiv(a, b) * b <= a < TruncDiv(a, b) * b + b
    ensures a < 0 ==> TruncDiv(a, b) * b - b < a <= TruncDiv(a, b) * b
  {
    if a < 0 {
      var q := (-a) / b;
      assert q * b <= -a < q * b + b;
      assert TruncDiv(a, b) * b == -(q * b);
    }
  }

  /** Multiplying by a positive factor keeps the order of two integers. */
  lemma MulLeft(x: int, y: int, k: int)
    requires k > 0
    ensures x <= y <==> x * k <= y * k
  {
    if x <= y {
      assert y * k - x * k == (y - x) * k;
    } else {
      assert x * k - y * k == (x - y) * k;
    }
  }
}
