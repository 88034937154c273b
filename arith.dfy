/** Facts about Euclidean division that the index arithmetic of the lattice
    rests on. Dafny's `/` and `%` agree with Rust's on the non-negative
    operands used here. */
module Arith {

  lemma {:induction false} MulAtLeast(b: int, k: int)
    requires b >= 1 && k >= 1
    ensures b * k >= b
  {
    if k > 1 {
      MulAtLeast(b, k - 1);
      assert b * k == b * (k - 1) + b;
    }
  }

  /** Quotient and remainder are determined by any decomposition
      `x == b * q + r` with `0 <= r < b`. */
  lemma DivModUnique(x: int, b: int, q: int, r: int)
    requires b >= 1 && 0 <= r < b && x == b * q + r
    ensures x / b == q && x % b == r
  {
    var q', r' := x / b, x % b;
    assert x == b * q' + r';
    var k := q - q';
    assert b * k == r' - r;
    if k >= 1 {
      MulAtLeast(b, k);
    } else if k <= -1 {
      MulAtLeast(b, -k);
    }
  }

  lemma MulMonotone(a: int, b: int, k: int)
    requires 0 <= a <= b && k >= 0
    ensures a * k <= b * k
  {
    assert b * k - a * k == (b - a) * k;
  }
}
