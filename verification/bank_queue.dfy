/** Orderings of a bank queue in which three friends keep their relative
    order (trabalhos/provas/prova1/fila_do_banco.cpp). */
module BankQueue {

  function Factorial(n: nat): nat
  {
    if n == 0 then 1 else n * Factorial(n - 1)
  }

  /** The program's product n * (n-1) * ... * 4, which is 1 when n <= 3.
      It counts the n! orderings divided by the 3! orders of the friends. */
  function Orderings(n: int): (total: int)
    ensures n <= 3 ==> total == 1
    ensures n >= 3 ==> 6 * total == Factorial(n)
  {
    if n <= 3 then 1 else n * Orderings(n - 1)
  }

  /** The loop in the program, counting down from n to 4. */
  method CountOrderings(n: int) returns (total: int)
    ensures n <= 3 ==> total == 1
    ensures n >= 3 ==> 6 * total == Factorial(n)
  {
    total := 1;
    var i := n;
    while i > 3
      invariant total * Orderings(i) == Orderings(n)
    {
      assert Orderings(i) == i * Orderings(i - 1);
      assert total * Orderings(i) == (total * i) * Orderings(i - 1) by {
        MulAssoc(total, i, Orderings(i - 1));
      }
      total := total * i;
      i := i - 1;
    }
  }

  lemma MulAssoc(a: int, b: int, c: int)
    ensures a * (b * c) == (a * b) * c
  {
  }

  lemma FourPeople()
    ensures Orderings(4) == 4
  {
  }
}
