/** Counting the ways to make an amount from a list of coin values
    (trabalhos/uva_147_dollars/main.cpp, `countWays`). Amounts are in cents;
    the conversion from the dollar input is not part of this model. */
module CoinChange {
  import opened Arith

  /** The program's coin values, in cents. */
  const Coins: seq<int> := [10000, 5000, 2000, 1000, 500, 200, 100, 50, 20, 10, 5]

  predicate PositiveCoins(coins: seq<int>)
  {
    forall i :: 0 <= i < |coins| ==> coins[i] > 0
  }

  /** The recurrence: use coins[index] once more, or move on to the next coin. */
  function Ways(coins: seq<int>, amount: int, index: nat): (r: nat)
    requires PositiveCoins(coins)
    ensures index < |coins| && amount >= 0 && amount % coins[index] == 0 ==> r >= 1
    decreases amount, |coins| - index
  {
    if amount == 0 then 1
    else if index >= |coins| || amount < 0 then 0
    else
      SubtractMultiple(amount, coins[index]);
      Ways(coins, amount - coins[index], index) + Ways(coins, amount, index + 1)
  }

  /** A combination is a multiset of coins drawn from coins[index..], written
      as a non-decreasing list of coin positions. */
  function SumCoins(coins: seq<int>, s: seq<int>): int
    requires forall i :: 0 <= i < |s| ==> 0 <= s[i] < |coins|
  {
    if |s| == 0 then 0 else coins[s[0]] + SumCoins(coins, s[1..])
  }

  predicate IsCombination(coins: seq<int>, s: seq<int>, amount: int, index: nat)
  {
    && (forall i :: 0 <= i < |s| ==> index <= s[i] < |coins|)
    && (forall i, j :: 0 <= i <= j < |s| ==> s[i] <= s[j])
    && SumCoins(coins, s) == amount
  }

  predicate Distinct(xs: seq<seq<int>>)
  {
    forall i, j :: 0 <= i < j < |xs| ==> xs[i] != xs[j]
  }

  function Prepend(index: int, xs: seq<seq<int>>): (r: seq<seq<int>>)
    ensures |r| == |xs|
    ensures forall i :: 0 <= i < |xs| ==> r[i] == [index] + xs[i]
  {
    seq(|xs|, i requires 0 <= i < |xs| => [index] + xs[i])
  }

  /** Every combination, listed once: the ones that use coins[index] and the
      ones that do not. */
  function Combinations(coins: seq<int>, amount: int, index: nat): (r: seq<seq<int>>)
    requires PositiveCoins(coins)
    decreases amount, |coins| - index
  {
    if amount == 0 then [[]]
    else if index >= |coins| || amount < 0 then []
    else Prepend(index, Combinations(coins, amount - coins[index], index))
         + Combinations(coins, amount, index + 1)
  }

  lemma SumCoinsPositive(coins: seq<int>, s: seq<int>)
    requires PositiveCoins(coins)
    requires forall i :: 0 <= i < |s| ==> 0 <= s[i] < |coins|
    ensures |s| > 0 ==> SumCoins(coins, s) > 0
    ensures |s| == 0 ==> SumCoins(coins, s) == 0
  {
    if |s| > 0 {
      SumCoinsPositive(coins, s[1..]);
    }
  }

  /** The recurrence counts the combinations: the list above has exactly
      Ways elements, none repeated, and it holds exactly the combinations. */
  lemma {:induction false} WaysCountsCombinations(coins: seq<int>, amount: int, index: nat)
    requires PositiveCoins(coins)
    ensures |Combinations(coins, amount, index)| == Ways(coins, amount, index)
    ensures Distinct(Combinations(coins, amount, index))
    ensures forall s :: s in Combinations(coins, amount, index) <==> IsCombination(coins, s, amount, index)
    decreases amount, |coins| - index
  {
    if amount == 0 {
      WaysNothing(coins, index);
    } else if index >= |coins| || amount < 0 {
      WaysNoCoins(coins, amount, index);
    } else {
      WaysCountsCombinations(coins, amount - coins[index], index);
      WaysCountsCombinations(coins, amount, index + 1);
      WaysStep(coins, amount, index, amount - coins[index], index + 1);
    }
  }

  /** Nothing is paid one way only: with no coins. */
  lemma WaysNothing(coins: seq<int>, index: nat)
    requires PositiveCoins(coins)
    ensures |Combinations(coins, 0, index)| == Ways(coins, 0, index)
    ensures Distinct(Combinations(coins, 0, index))
    ensures forall s :: s in Combinations(coins, 0, index) <==> IsCombination(coins, s, 0, index)
  {
    forall s | IsCombination(coins, s, 0, index)
      ensures s in Combinations(coins, 0, index)
    {
      CombinationShape(coins, s, 0, index);
    }
  }

  /** A non-zero amount with no coins left, or a negative amount, cannot be
      paid. */
  lemma WaysNoCoins(coins: seq<int>, amount: int, index: nat)
    requires PositiveCoins(coins)
    requires amount != 0 && (index >= |coins| || amount < 0)
    ensures |Combinations(coins, amount, index)| == Ways(coins, amount, index)
    ensures Distinct(Combinations(coins, amount, index))
    ensures forall s :: s in Combinations(coins, amount, index) <==> IsCombination(coins, s, amount, index)
  {
    forall s | IsCombination(coins, s, amount, index)
      ensures false
    {
      CombinationShape(coins, s, amount, index);
    }
  }

  /** The recursive case, given the claim for both smaller problems. */
  lemma WaysStep(coins: seq<int>, amount: int, index: nat, less: int, after: nat)
    requires PositiveCoins(coins)
    requires amount > 0 && index < |coins|
    requires less == amount - coins[index] && after == index + 1
    requires |Combinations(coins, less, index)| == Ways(coins, less, index)
    requires Distinct(Combinations(coins, less, index))
    requires forall s :: s in Combinations(coins, less, index) <==> IsCombination(coins, s, less, index)
    requires |Combinations(coins, amount, after)| == Ways(coins, amount, after)
    requires Distinct(Combinations(coins, amount, after))
    requires forall s :: s in Combinations(coins, amount, after) <==> IsCombination(coins, s, amount, after)
    ensures |Combinations(coins, amount, index)| == Ways(coins, amount, index)
    ensures Distinct(Combinations(coins, amount, index))
    ensures forall s :: s in Combinations(coins, amount, index) <==> IsCombination(coins, s, amount, index)
  {
    var a := Combinations(coins, amount - coins[index], index);
    var b := Combinations(coins, amount, index + 1);
    assert Combinations(coins, amount, index) == Prepend(index, a) + b;
    StepSound(coins, amount, index, a, b);
    StepComplete(coins, amount, index, a, b);
    StepDistinct(coins, amount, index, a, b);
  }

  /** The empty list is the only combination for nothing, and a non-empty
      one needs a coin at or after `index` and a positive amount. */
  lemma CombinationShape(coins: seq<int>, s: seq<int>, amount: int, index: nat)
    requires PositiveCoins(coins)
    requires IsCombination(coins, s, amount, index)
    ensures s == [] <==> amount == 0
    ensures s != [] ==> index < |coins| && amount > 0
  {
    SumCoinsPositive(coins, s);
  }

  /** Every list in the recursive case is a combination. */
  lemma StepSound(coins: seq<int>, amount: int, index: nat, a: seq<seq<int>>, b: seq<seq<int>>)
    requires PositiveCoins(coins) && index < |coins|
    requires forall s :: s in a ==> IsCombination(coins, s, amount - coins[index], index)
    requires forall s :: s in b ==> IsCombination(coins, s, amount, index + 1)
    ensures forall s :: s in Prepend(index, a) + b ==> IsCombination(coins, s, amount, index)
  {
    var pa := Prepend(index, a);
    forall s | s in pa + b
      ensures IsCombination(coins, s, amount, index)
    {
      if s in pa {
        var i :| 0 <= i < |pa| && pa[i] == s;
        assert a[i] in a;
        assert s[1..] == a[i];
      }
    }
  }

  /** Every combination is in the list of the recursive case: it uses
      coins[index] or it does not. */
  lemma StepComplete(coins: seq<int>, amount: int, index: nat, a: seq<seq<int>>, b: seq<seq<int>>)
    requires PositiveCoins(coins) && index < |coins| && amount > 0
    requires forall s :: IsCombination(coins, s, amount - coins[index], index) ==> s in a
    requires forall s :: IsCombination(coins, s, amount, index + 1) ==> s in b
    ensures forall s :: IsCombination(coins, s, amount, index) ==> s in Prepend(index, a) + b
  {
    var pa := Prepend(index, a);
    forall s | IsCombination(coins, s, amount, index)
      ensures s in pa + b
    {
      SumCoinsPositive(coins, s);
      if s[0] == index {
        assert IsCombination(coins, s[1..], amount - coins[index], index);
        assert s[1..] in a;
        var i :| 0 <= i < |a| && a[i] == s[1..];
        assert pa[i] == s;
      } else {
        assert IsCombination(coins, s, amount, index + 1);
      }
    }
  }

  /** No list repeats in the recursive case: the first part starts with
      `index`, the second never uses it. */
  lemma StepDistinct(coins: seq<int>, amount: int, index: nat, a: seq<seq<int>>, b: seq<seq<int>>)
    requires Distinct(a) && Distinct(b)
    requires forall s :: s in b ==> IsCombination(coins, s, amount, index + 1)
    ensures Distinct(Prepend(index, a) + b)
  {
    var pa := Prepend(index, a);
    var r := pa + b;
    forall i, j | 0 <= i < j < |r|
      ensures r[i] != r[j]
    {
      if j < |pa| {
        assert pa[i][1..] == a[i] && pa[j][1..] == a[j];
      } else if i < |pa| {
        assert r[j] in b;
        assert IsCombination(coins, r[j], amount, index + 1);
        assert r[i][0] == index;
      }
    }
  }

  /** The memo table: a missing entry reads as zero, like a fresh slot of the
      program's hash map. */
  type Memo = map<(int, int), nat>

  function Lookup(memo: Memo, amount: int, index: int): nat
  {
    if (amount, index) in memo then memo[(amount, index)] else 0
  }

  /** Every stored entry is for a positive amount and an existing coin, and
      holds the value of the recurrence. */
  predicate MemoSound(coins: seq<int>, memo: Memo)
    requires PositiveCoins(coins)
  {
    forall k :: k in memo ==>
      k.0 > 0 && 0 <= k.1 < |coins| && memo[k] == Ways(coins, k.0, k.1)
  }

  /** The memoised recursion of the program. */
  method CountWays(amount: int, index: nat, coins: seq<int>, memo: Memo)
    returns (result: nat, memo': Memo)
    requires PositiveCoins(coins)
    requires MemoSound(coins, memo)
    ensures result == Ways(coins, amount, index)
    ensures MemoSound(coins, memo')
    ensures forall k :: k in memo ==> k in memo' && memo'[k] == memo[k]
    ensures forall k :: k in memo' && k !in memo ==> k.0 > 0 && k.1 < |coins|
    decreases amount, |coins| - index
  {
    memo' := memo;
    if amount == 0 {
      result := 1;
    } else if index >= |coins| || amount < 0 {
      result := 0;
    } else if Lookup(memo, amount, index) != 0 {
      result := Lookup(memo, amount, index);
    } else {
      var first, second;
      first, memo' := CountWays(amount - coins[index], index, coins, memo');
      second, memo' := CountWays(amount, index + 1, coins, memo');
      result := first + second;
    }
    if amount > 0 && result > Lookup(memo', amount, index) {
      memo' := memo'[(amount, index) := result];
    }
  }
}
