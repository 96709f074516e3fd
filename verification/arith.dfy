/** Facts about Dafny's Euclidean `/` and `%` on a positive divisor, shared
    by the models that reason about remainders. */
module Arith {

  lemma DivMod(a: int, m: int)
    requires m > 0
    ensures a - a % m == (a / m) * m
  {
  }

  /** A multiple of m leaves no remainder. */
  lemma {:induction false} MulModZero(q: int, m: int)
    requires m > 0
    ensures (q * m) % m == 0
  {
    var x := q * m;
    var d := q - x / m;
    assert m * d == x % m;
  }

  /** A positive multiple of m is at least m, and taking m away leaves a
      multiple of m. */
  lemma SubtractMultiple(x: int, m: int)
    requires m > 0
    ensures x > 0 && x % m == 0 ==> x >= m && (x - m) % m == 0
  {
    if x > 0 && x % m == 0 {
      DivMod(x, m);
      MulModZero(x / m - 1, m);
      assert x - m == (x / m - 1) * m;
    }
  }
}
