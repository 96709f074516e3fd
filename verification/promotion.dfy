/** Greedy product selection under a weight limit (provas/prova1/promocao.cpp). */
module Promotion {

  datatype Product = Product(price: int, weight: int)

  /** Total price of the products marked in `taken`. */
  function PriceOf(items: seq<Product>, taken: seq<bool>): int
    requires |taken| == |items|
  {
    if |items| == 0 then 0
    else PriceOf(items[..|items| - 1], taken[..|taken| - 1])
         + (if taken[|taken| - 1] then items[|items| - 1].price else 0)
  }

  /** Total weight of the products marked in `taken`. */
  function WeightOf(items: seq<Product>, taken: seq<bool>): int
    requires |taken| == |items|
  {
    if |items| == 0 then 0
    else WeightOf(items[..|items| - 1], taken[..|taken| - 1])
         + (if taken[|taken| - 1] then items[|items| - 1].weight else 0)
  }

  lemma WeightOfNonNegative(items: seq<Product>, taken: seq<bool>)
    requires |taken| == |items|
    requires forall i :: 0 <= i < |items| ==> items[i].weight >= 0
    ensures WeightOf(items, taken) >= 0
  {
    if |items| > 0 {
      WeightOfNonNegative(items[..|items| - 1], taken[..|taken| - 1]);
    }
  }

  /** One pass of the loop of `Select`: appending the decision for the next
      product keeps every decision greedy. */
  lemma SelectStep(items: seq<Product>, maxWeight: int, taken: seq<bool>, take: bool, next: seq<bool>)
    requires |taken| < |items| && next == taken + [take]
    requires forall k :: 0 <= k < |taken| ==>
               (taken[k] <==> items[k].weight < maxWeight - WeightOf(items[..k], taken[..k]))
    requires take == (items[|taken|].weight < maxWeight - WeightOf(items[..|taken|], taken))
    ensures forall k :: 0 <= k < |next| ==>
              (next[k] <==> items[k].weight < maxWeight - WeightOf(items[..k], next[..k]))
  {
    var i := |taken|;
    assert next[..i] == taken;
    assert forall k :: 0 <= k <= i ==> next[..k] == taken[..k];
  }

  /** Appending the decision for the next product adds its price and weight
      when it is taken. */
  lemma SelectTotals(items: seq<Product>, taken: seq<bool>, take: bool, next: seq<bool>)
    requires |taken| < |items| && next == taken + [take]
    ensures PriceOf(items[..|next|], next) == PriceOf(items[..|taken|], taken) + (if take then items[|taken|].price else 0)
    ensures WeightOf(items[..|next|], next) == WeightOf(items[..|taken|], taken) + (if take then items[|taken|].weight else 0)
  {
    var i := |taken|;
    assert items[..i + 1][..i] == items[..i];
    assert next[..i] == taken;
  }

  /** Scans the list once, in order, and takes a product exactly when its
      weight is strictly below the capacity still left. */
  method Select(items: seq<Product>, maxWeight: int)
    returns (maxPrice: int, currentWeight: int, taken: seq<bool>)
    ensures |taken| == |items|
    ensures forall i :: 0 <= i < |items| ==>
              (taken[i] <==> items[i].weight < maxWeight - WeightOf(items[..i], taken[..i]))
    ensures maxPrice == PriceOf(items, taken)
    ensures currentWeight == WeightOf(items, taken)
    ensures maxWeight >= 0 ==> currentWeight <= maxWeight
    ensures (exists i :: 0 <= i < |items| && taken[i]) ==> currentWeight < maxWeight
    ensures |items| == 0 ==> maxPrice == 0
  {
    currentWeight := 0;
    maxPrice := 0;
    taken := [];
    var i := 0;
    while i < |items|
      invariant 0 <= i <= |items|
      invariant |taken| == i
      invariant forall k :: 0 <= k < i ==>
                  (taken[k] <==> items[k].weight < maxWeight - WeightOf(items[..k], taken[..k]))
      invariant maxPrice == PriceOf(items[..i], taken)
      invariant currentWeight == WeightOf(items[..i], taken)
      invariant maxWeight >= 0 ==> currentWeight <= maxWeight
      invariant (exists k :: 0 <= k < i && taken[k]) ==> currentWeight < maxWeight
    {
      var take := items[i].weight < maxWeight - currentWeight;
      if take {
        currentWeight := currentWeight + items[i].weight;
        maxPrice := maxPrice + items[i].price;
      }
      SelectStep(items, maxWeight, taken, take, taken + [take]);
      SelectTotals(items, taken, take, taken + [take]);
      taken := taken + [take];
      i := i + 1;
    }
    assert items[..i] == items;
  }

  /** With non-negative weights, a product at least as heavy as the whole
      capacity is never taken. */
  lemma HeavyNeverTaken(items: seq<Product>, maxWeight: int, taken: seq<bool>, i: int)
    requires |taken| == |items|
    requires forall k :: 0 <= k < |items| ==> items[k].weight >= 0
    requires forall k :: 0 <= k < |items| ==>
               (taken[k] <==> items[k].weight < maxWeight - WeightOf(items[..k], taken[..k]))
    requires 0 <= i < |items| && items[i].weight >= maxWeight
    ensures !taken[i]
  {
    WeightOfNonNegative(items[..i], taken[..i]);
  }
}
