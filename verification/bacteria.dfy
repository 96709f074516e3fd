/** Bacteria population recurrence (provas/prova1/bacterias.cpp). */
module Bacteria {
  import opened Arith

  const Modulus: int := 13371337

  /** C++ `%`: the remainder takes the sign of the dividend. */
  function CRem(a: int, m: int): (r: int)
    requires m > 0
    ensures a >= 0 ==> 0 <= r < m
    ensures a < 0 ==> -m < r <= 0
    ensures (a - r) % m == 0
  {
    if a >= 0 then
      DivMod(a, m);
      MulModZero(a / m, m);
      a % m
    else
      DivMod(-a, m);
      assert a + (-a) % m == (-((-a) / m)) * m;
      MulModZero(-((-a) / m), m);
      -((-a) % m)
  }

  /** Bacteria born on day `k` (0-based): the four given days, and after
      that every living bacterium of the previous day produces one. */
  function Births(b: seq<int>, k: nat): int
    requires |b| == 4
    decreases k, 0
  {
    if k < 4 then b[k] else Population(b, k - 1)
  }

  /** Living bacteria at the end of day `k` (k >= 3): a bacterium lives for
      four days, so the population is the births of the last four days. */
  function Population(b: seq<int>, k: nat): int
    requires |b| == 4
    requires k >= 3
    decreases k, 1
  {
    Births(b, k - 3) + Births(b, k - 2) + Births(b, k - 1) + Births(b, k)
  }

  /** The program's answer for final day `n`: the running total starts at
      the sum of the four given days and each further day doubles it and
      removes the births of four days before. The table of births has only
      four entries, so the program is defined only for n <= 8. */
  method FinalPopulation(n: int, b: seq<int>) returns (out: int)
    requires |b| == 4
    requires n <= 8
    ensures out == CRem(Population(b, if n <= 4 then 3 else n - 1), Modulus)
  {
    var total := b[0] + b[1] + b[2] + b[3];
    var i := 4;
    while i < n
      invariant 4 <= i
      invariant i <= 4 || i <= n
      invariant total == Population(b, i - 1)
    {
      total := total * 2;
      total := total - b[i - 4];
      i := i + 1;
    }
    out := CRem(total, Modulus);
  }
}
