# lpa judge solutions in Dafny

A model, in Dafny, of the algorithmic core of a collection of integer-only
programming-judge solutions (C++, C and Go), with proofs of what each
solution computes. Every component is a separate module, and each module
follows one source file:

- **MaxOLouco** (`provas/prova2/max_o_louco/main.cpp`) covers the fuel-priced route.
  - The road matrix is built from the input.
  - A Dijkstra search prices every hop as road length times the fuel price at the departure city. It skips roads longer than the tank.
  - The route is rebuilt from the `prev` links.
  - A greedy refuelling replay runs with a tank that starts full.
- **UnionFind** covers three disjoint-set variants, each with union by rank and path compression.
  - The plain structure (`uva_11710_expensive_subway/DisjointSet.cpp` and `.hpp`).
  - The size-returning C++ structure (`uva_10608_friends/DisjointSet.cpp`).
  - The count-returning Go structure and its largest-group fold (`uva_10608_friends/uva_friends.go`).
  - The inline copy of `uva_11857.cpp`.
- **Graphs**, **Kruskal** and **Prim** model `uva_11710_expensive_subway/Graph.cpp`: adjacency lists, DFS connectivity, `kruskalMST` and `primMST`.
- **DrivingRange** models the bottleneck Kruskal of `uva_11857_driving_range/uva_11857.cpp`. Its answer is the largest accepted edge, or IMPOSSIBLE.
- **MaxSumC**, **MaxSumGo** and **MaxSumSpec** cover the maximum subarray and sub-rectangle sums of `uva_108_maximum_number` (`main.c`, `main.go`). MaxSumSpec holds the reference definitions.
- **LightUp** models the `Board` operations of `uri_1275_light_up/light_up.cpp`: lamp insertion with ray lighting, barrier checks, blocking, and candidate generation per barrier number.
- **FlowNetwork** models the Edmonds–Karp maximum flow of `uri_1362_minha_camiseta_me_serve/main.cpp` and the T-shirt network built on it.
- **CoinChange** models the memoised coin-change count of `uva_147_dollars/main.cpp`.
- **KnightsInFen** and **LevelSearch** model the board key, the knight moves and the depth-limited breadth-first search of `uva_10422_knights_in_fen/main.cpp`.
- **AntColony** and **AntTree** model the tunnel lists and the depth-first distance query of `uri_1135_colonia_de_formigas/main.cpp`.
- **Billiards**, **Promotion**, **Bacteria** and **BankQueue** model the small exam kernels of `provas/prova1`.

Machine integers are modelled as unbounded `int`. Where the source's width
matters it is written out:
- the 32-bit read of a `long` tunnel length;
- the 64-bit wrap of the Go `Max`, and its `>> 31`, under which the Go scans are proved for sums within 2^30 (the shift by 63 is modelled beside it, for sums within 2^62);
- `size_t` wrap-around in the driving-range loop;
- `INT_MIN`/`INT_MAX` sentinels.

Hash maps become Dafny maps. A priority queue becomes an explicit pick of the
least entry.

## Model

| member | source | states |
|---|---|---|
| Bacteria.CRem | provas/prova1/bacterias.cpp:34 | C++ `%`: the remainder is congruent to the dividend modulo m and keeps its sign, in [0, m) for a non-negative total and in (-m, 0], so it is the truncating remainder |
| Bacteria.FinalPopulation | provas/prova1/bacterias.cpp:14-34 | for every final day n <= 8 the printed value is the living population of day max(n, 4), the births of that day and the three before it, reduced by the C++ remainder |
| BankQueue.Orderings | trabalhos/provas/prova1/fila_do_banco.cpp:18-21 | up to three people there is one ordering; from three on, six times the count is n!, i.e. the count is n!/3! with the friends' relative order fixed |
| BankQueue.CountOrderings | trabalhos/provas/prova1/fila_do_banco.cpp:18-21 | the counting-down loop from n to 4 yields 1 for n <= 3 and n!/3! otherwise |
| BankQueue.FourPeople | trabalhos/provas/prova1/fila_do_banco.cpp:6-9 | a queue of four people with the three friends in order has four orderings |
| Billiards.Distance | provas/prova1/bilhar.cpp:8-11 | the squared distance is non-negative and is zero exactly when the two balls coincide |
| Billiards.DistanceSymmetric | provas/prova1/bilhar.cpp:8-11 | the squared distance does not depend on the order of the two balls |
| Billiards.Nearest | provas/prova1/bilhar.cpp:43-54 | the 1-based index lies in [1, n]; the chosen ball is no farther than any ball, and every earlier ball is strictly farther (ties go to the earliest) |
| Promotion.Select | provas/prova1/promocao.cpp:28-41 | each product, in list order, is taken exactly when its weight is strictly below the capacity left by the earlier choices; price and weight are the sums over the taken products; the weight never exceeds a non-negative limit and stays strictly below it once anything is taken; an empty list gives 0 |
| Promotion.HeavyNeverTaken | provas/prova1/promocao.cpp:37 | with non-negative weights a product at least as heavy as the whole limit is never taken |
| Promotion.WeightOfNonNegative | provas/prova1/promocao.cpp:38 | the weight of any selection of non-negative products is non-negative |
| CoinChange.CountWays | trabalhos/uva_147_dollars/main.cpp:9-29 | the memoised recursion returns the value of the plain recurrence (1 for amount 0, 0 for a negative amount or no coins left, otherwise use-this-coin plus skip-it); stored entries keep their values, new ones are only for a positive amount and an existing coin, and every entry holds the recurrence's value |
| CoinChange.WaysCountsCombinations | trabalhos/uva_147_dollars/main.cpp:9-29 | the recurrence counts exactly the multisets of coins drawn from coins[index..] that add up to the amount, each counted once, order ignored |
| CoinChange.Ways | trabalhos/uva_147_dollars/main.cpp:13-21 | an amount that is a multiple of the current coin can always be paid, so the recurrence gives at least one way |
| CoinChange.WaysNothing | trabalhos/uva_147_dollars/main.cpp:13-14 | an amount of zero has exactly one combination, the empty one |
| CoinChange.WaysNoCoins | trabalhos/uva_147_dollars/main.cpp:15-16 | a negative amount, or a non-zero amount with no coins left, has no combination |
| CoinChange.WaysStep | trabalhos/uva_147_dollars/main.cpp:19-21 | the count for (amount, index) is the sum of the counts for using coins[index] again and for moving past it, and the two families are disjoint and together complete |
| CoinChange.CombinationShape | trabalhos/uva_147_dollars/main.cpp:13-16 | a combination is empty exactly when the amount is zero; a non-empty one needs a positive amount and a coin left |
| CoinChange.StepSound | trabalhos/uva_147_dollars/main.cpp:20-21 | every list produced by the two recursive cases is a combination for the larger problem |
| CoinChange.StepComplete | trabalhos/uva_147_dollars/main.cpp:20-21 | every combination for the larger problem either uses coins[index] or does not, so it is produced by one of the two cases |
| CoinChange.StepDistinct | trabalhos/uva_147_dollars/main.cpp:20-21 | the two recursive cases never produce the same combination |
| CoinChange.SumCoinsPositive | trabalhos/uva_147_dollars/main.cpp:35 | with positive coin values, a non-empty combination has a positive total and the empty one totals zero |
| MaxSumC.MaxSumArray | trabalhos/uva_108_maximum_number/main.c:93-104 | Kadane's scan returns the largest sum of a non-empty contiguous run, which is at least every element |
| MaxSumC.AddRow | trabalhos/uva_108_maximum_number/main.c:113-115 | after the inner loop every column sum has grown by exactly that column's entry of the added row |
| MaxSumC.ColumnSumsExtend | trabalhos/uva_108_maximum_number/main.c:110-115 | after adding row j the running array is the column sums of rows i..j |
| MaxSumC.FirstStripBeatsIntMin | trabalhos/uva_108_maximum_number/main.c:107-118 | the first strip's best run replaces the INT_MIN start value |
| MaxSumC.ScanStrip | trabalhos/uva_108_maximum_number/main.c:112-119 | one strip step extends the column sums by row j and keeps the running maximum equal to the best rectangle scanned so far |
| MaxSumC.ScanStrips | trabalhos/uva_108_maximum_number/main.c:110-121 | after all strips starting at row i the running maximum bounds and is attained by every rectangle scanned so far |
| MaxSumC.MaxSumMatrix | trabalhos/uva_108_maximum_number/main.c:106-125 | INT_MIN for an empty matrix; otherwise the largest sum of a non-empty sub-rectangle, at least every entry |
| MaxSumSpec.KadaneStart | trabalhos/uva_108_maximum_number/main.c:94-95 | with one element seen, both running values are the first element |
| MaxSumSpec.KadaneStep | trabalhos/uva_108_maximum_number/main.c:97-101 | the loop keeps currentSum equal to the best run ending at i and maxSum equal to the best run within the prefix |
| MaxSumSpec.KadaneEnd | trabalhos/uva_108_maximum_number/main.c:103 | at the end the best run within the whole array is the largest run sum |
| MaxSumSpec.MaxSubarraySumUnique | trabalhos/uva_108_maximum_number/main.c:33-41 | the largest run sum is a single value |
| MaxSumSpec.MaxSubarrayAtLeastElements | trabalhos/uva_108_maximum_number/main.c:99-100 | the largest run sum is at least every element |
| MaxSumSpec.SumOfPointwiseAdd | trabalhos/uva_108_maximum_number/main.c:113-115 | summing a run of entrywise sums equals summing the two runs separately |
| MaxSumSpec.SumOfZeros | trabalhos/uva_108_maximum_number/main.c:110 | a freshly zeroed array sums to zero on every run |
| MaxSumSpec.RectSumByColumns | trabalhos/uva_108_maximum_number/main.c:109-118 | a rectangle's sum is the run sum, over its columns, of its strip's column sums |
| MaxSumSpec.StripStep | trabalhos/uva_108_maximum_number/main.c:117-118 | folding in a strip's best run keeps the running maximum an upper bound of, and attained by, the rectangles scanned so far |
| MaxSumSpec.ScannedNextStrip | trabalhos/uva_108_maximum_number/main.c:109-122 | finishing the strips starting at row i is the same as starting those at row i+1 |
| MaxSumSpec.ScannedAll | trabalhos/uva_108_maximum_number/main.c:124 | once every strip is scanned the running maximum is the largest rectangle sum |
| MaxSumSpec.MaxRectAtLeastEntries | trabalhos/uva_108_maximum_number/main.c:43-51 | the largest rectangle sum is at least every entry |
| MaxSumGo.Wrap64 | trabalhos/uva_108_maximum_number/main.go:7-8 | the wrapped value is a 64-bit integer congruent to the exact one modulo 2^64, and equal to it when it already fits |
| MaxSumGo.And | trabalhos/uva_108_maximum_number/main.go:13 | masking with a non-negative operand yields a value between 0 and that operand |
| MaxSumGo.AndCommutes | trabalhos/uva_108_maximum_number/main.go:13 | the bitwise AND does not depend on the order of its operands |
| MaxSumGo.MaxAsWritten | trabalhos/uva_108_maximum_number/main.go:10-15 | the branch-free maximum with a shift by 31 always yields a 64-bit integer |
| MaxSumGo.MaxAsWrittenWithin32Bits | trabalhos/uva_108_maximum_number/main.go:10-15 | while x - y fits in a signed 32-bit range the result is the larger argument |
| MaxSumGo.MaxAsWrittenCounterexample | trabalhos/uva_108_maximum_number/main.go:10-15 | Max(2^31 + 1, 0) yields 2^31, which is neither argument |
| MaxSumGo.Max | trabalhos/uva_108_maximum_number/main.go:10-15 | with the sign taken from bit 63, the result is the larger argument whenever x - y is a 64-bit integer |
| MaxSumGo.MaxBy | trabalhos/uva_108_maximum_number/main.go:10-15 | `Max` with the chosen shift (31 as written, 63 corrected) is the larger argument whenever both arguments lie within that shift's bound, 2^30 or 2^62 |
| MaxSumGo.ArrayScan | trabalhos/uva_108_maximum_number/main.go:21-27 | continuing the loop, with `Max` shifting as chosen, from a state holding the best run ending at i and the best run within the prefix ends with the largest run sum, provided every run sum lies within the shift's bound |
| MaxSumGo.ScanValuesBounded | trabalhos/uva_108_maximum_number/main.go:22-24 | every value the loop adds or compares is a run sum, so it lies within the bound every run sum lies within |
| MaxSumGo.ArrayMaxSum | trabalhos/uva_108_maximum_number/main.go:17-28 | `IntArray.MaxSum` of a non-empty slice is the largest sum of a non-empty contiguous run; as written (shift by 31) for run sums within [-2^30, 2^30), corrected for run sums within [-2^62, 2^62) |
| MaxSumGo.StripIsRect | trabalhos/uva_108_maximum_number/main.go:37-43 | the best run of a strip's column sums is the sum of a rectangle, and those column sums inherit the bound on rectangle sums |
| MaxSumGo.AddRow | trabalhos/uva_108_maximum_number/main.go:38-40 | each running column sum grows by exactly that column's entry of row j |
| MaxSumGo.StripScan | trabalhos/uva_108_maximum_number/main.go:37-44 | folding the strips starting at row i with `Max` shifting as chosen, the running maximum stays the sum of some rectangle and bounds every rectangle scanned |
| MaxSumGo.MatrixScan | trabalhos/uva_108_maximum_number/main.go:34-45 | after all strip starts, with `Max` shifting as chosen, the running maximum is a rectangle sum bounding every rectangle |
| MaxSumGo.ScannedAllRects | trabalhos/uva_108_maximum_number/main.go:47 | a rectangle sum that bounds every rectangle is the largest rectangle sum |
| MaxSumGo.MatrixMaxSum | trabalhos/uva_108_maximum_number/main.go:30-48 | `IntMatrix.MaxSum` of a non-empty square matrix, starting from m[0][0], is the largest sum of a non-empty sub-rectangle; as written (shift by 31) for rectangle sums within [-2^30, 2^30), corrected within [-2^62, 2^62) |
| MaxSumGo.ArrayMaxSumAsWrittenCounterexample | trabalhos/uva_108_maximum_number/main.go:21-25 | on [0, 2^31 + 1] the loop's `Max(maxSum, currSum)` with the shift by 31 yields 2^31 + 2, one more than the largest run sum, while `Max(a[1], currSum)` is still right |
| MaxSumGo.RectWithinParts | trabalhos/uva_108_maximum_number/main.go:51 | every rectangle sum lies between the sum of all negative entries and the sum of all positive entries |
| MaxSumGo.SampleMaxSum | trabalhos/uva_108_maximum_number/main.go:50-53 | the sample matrix satisfies the 2^30 bound and the program as written answers 2, the lone positive entry |
| MaxSumGo.MaxRectSumUnique | trabalhos/uva_108_maximum_number/main.go:30-48 | the largest rectangle sum is a single value, so the C and Go answers agree |
| UnionFind.Rep | trabalhos/uva_11710_expensive_subway/DisjointSet.hpp:26-36 | the representative of x is a root, of rank at least x's, and a root is its own representative |
| UnionFind.Init | trabalhos/uva_11710_expensive_subway/DisjointSet.cpp:4-11 | the constructor gives every element rank 0 and makes it its own representative, in a well-formed structure |
| UnionFind.InitRoots | trabalhos/uva_11710_expensive_subway/DisjointSet.hpp:17-24 | the constructor yields exactly maxNumber singleton sets (one root per element) |
| UnionFind.Find | trabalhos/uva_11710_expensive_subway/DisjointSet.cpp:13-19 | find returns x's representative; after path compression x points at it, the ranks are unchanged and no element's representative or root status has changed |
| UnionFind.RepAfterRedirect | trabalhos/uva_11710_expensive_subway/DisjointSet.hpp:30-31 | pointing x straight at its representative changes no element's representative |
| UnionFind.CompressKeeps | trabalhos/uva_11710_expensive_subway/DisjointSet.cpp:14-16 | the recursive compression step keeps every representative and every root |
| UnionFind.FindRoots | trabalhos/uva_11710_expensive_subway/DisjointSet.hpp:30-31 | path compression keeps the set of roots |
| UnionFind.RepAfterLink | trabalhos/uva_11710_expensive_subway/DisjointSet.cpp:29-36 | hanging root a under root b moves exactly a's set into b's and leaves every other element's representative alone |
| UnionFind.RanksGrowValid | trabalhos/uva_11710_expensive_subway/DisjointSet.cpp:34-35 | on equal ranks, hanging one root under the other and raising the latter's rank keeps ranks strictly increasing towards the roots |
| UnionFind.Link | trabalhos/uva_11710_expensive_subway/DisjointSet.cpp:29-36 | linking keeps the structure well formed, raises the new root's rank only on a tie, and merges exactly the two sets, leaving every other set and root alone |
| UnionFind.Winner | trabalhos/uva_10608_friends/DisjointSet.cpp:36-49 | the root merge keeps is one of the two roots, of rank at least both ranks, and the second root on equal ranks |
| UnionFind.Merge | trabalhos/uva_11710_expensive_subway/DisjointSet.cpp:21-37 | after merge the elements of x's and y's sets share the surviving root (the one of higher rank, y's root on a tie), every other element keeps its representative, and only a tie raises a rank |
| UnionFind.FindBoth | trabalhos/uva_11710_expensive_subway/DisjointSet.cpp:22-23 | the two finds of merge yield the roots of x and y and change no rank or representative |
| UnionFind.LinkRoots | trabalhos/uva_11710_expensive_subway/DisjointSet.cpp:25-36 | the linking step does nothing when the roots coincide; otherwise the lower-rank root goes under the other, and on a tie the first goes under the second, whose rank grows by one |
| UnionFind.MergeTransfer | trabalhos/uva_11710_expensive_subway/DisjointSet.cpp:21-37 | the linking step's effect stated on the compressed structure holds of the original one, since compression changes no rank or representative |
| UnionFind.MergeJoins | trabalhos/uva_11710_expensive_subway/DisjointSet.hpp:38-51 | after merge(x, y) x and y share a representative, the root of one of their old sets, and an element joins x's set exactly when it was in x's or y's |
| UnionFind.MergeSameSet | trabalhos/uva_11710_expensive_subway/DisjointSet.cpp:25-27 | merging two elements of one set changes no rank and no representative |
| UnionFind.MergeKeepsSameSet | trabalhos/uva_11857_driving_range/uva_11857.cpp:80-96 | merge, here in the identical inline copy, never separates two elements |
| UnionFind.RootAfterMerge | trabalhos/uva_11710_expensive_subway/DisjointSet.cpp:29-36 | after merge an element is a root exactly when it was one and is not the root hung under the other |
| UnionFind.MergeRoots | trabalhos/uva_11857_driving_range/uva_11857.cpp:80-96 | merging two different sets removes exactly one root; merging within one set keeps all roots |
| UnionFind.RootsAfterMerge | trabalhos/uva_11710_expensive_subway/DisjointSet.cpp:21-37 | the roots after merge are the old roots, less the root hung under the other when the sets differed |
| UnionFind.OneRoot | trabalhos/uva_11857_driving_range/uva_11857.cpp:72-78 | with a single root every two elements share a set |
| UnionFind.AllSameOneRoot | trabalhos/uva_11710_expensive_subway/DisjointSet.cpp:13-19 | when every element shares a set with element 0 there is exactly one root |
| UnionFind.MembersBounds | trabalhos/uva_10608_friends/DisjointSet.cpp:10-47 | every set holds between 1 and n elements |
| UnionFind.SizedInit | trabalhos/uva_10608_friends/DisjointSet.cpp:7-14 | the size-counting constructor makes every element a singleton with counter 1 |
| UnionFind.Union | trabalhos/uva_10608_friends/DisjointSet.cpp:24-52 | merge returns the size of the set now holding x, which is that set's size when x and y were already together and the sum of the two sizes otherwise, stores it at the surviving root, links as merge does, and the result lies in [1, n] |
| UnionFind.Counters | trabalhos/uva_10608_friends/DisjointSet.cpp:36-49 | for two different roots the surviving root's counter becomes the sum of both counters and every other counter is unchanged; equal roots change nothing |
| UnionFind.UnionCounters | trabalhos/uva_10608_friends/DisjointSet.cpp:32-43 | after the counter update every root's counter is still the number of elements in its set |
| UnionFind.WinnerCounter | trabalhos/uva_10608_friends/DisjointSet.cpp:32-43 | the surviving root's counter is the size of the joined set |
| UnionFind.OtherCounters | trabalhos/uva_10608_friends/DisjointSet.cpp:32-43 | every other root keeps its counter and its set |
| UnionFind.CountersElsewhere | trabalhos/uva_10608_friends/DisjointSet.cpp:32-43 | the update touches only the counter of the surviving root |
| UnionFind.UnionCount | trabalhos/uva_10608_friends/uva_friends.go:29-49 | the returned count is the joined set's size: one set's size when x and y already shared a set, the sum of two disjoint sizes otherwise, within [1, n] |
| UnionFind.MembersJoined | trabalhos/uva_11710_expensive_subway/DisjointSet.cpp:29-36 | merge joins exactly the sets of x and y under the surviving root, and two different sets are disjoint |
| UnionFind.JoinedWithin | trabalhos/uva_11710_expensive_subway/DisjointSet.cpp:29-36 | every element of the joined set was in x's set or y's |
| UnionFind.JoinedCovers | trabalhos/uva_11710_expensive_subway/DisjointSet.cpp:29-36 | every element of x's or y's set is in the joined set |
| UnionFind.RepAfterMerge | trabalhos/uva_11710_expensive_subway/DisjointSet.cpp:29-36 | after merge an element has the surviving root as representative exactly when it was in x's or y's set |
| UnionFind.MembersDisjoint | trabalhos/uva_10608_friends/DisjointSet.cpp:10 | the sets of two different roots are disjoint |
| UnionFind.MembersKept | trabalhos/uva_11710_expensive_subway/DisjointSet.hpp:38-51 | every other root after merge was a root before with the same set |
| UnionFind.MemberKept | trabalhos/uva_11710_expensive_subway/DisjointSet.hpp:38-51 | membership in a set other than x's and y's is unchanged by merge |
| UnionFind.MakeSet | trabalhos/uva_10608_friends/uva_friends.go:11-15 | MakeSet appends parent x, rank 0 and count 1; on a consistent structure the result is consistent exactly when x is the next index |
| UnionFind.RepAfterAppend | trabalhos/uva_10608_friends/uva_friends.go:11-15 | appending an element changes no old representative |
| UnionFind.MakeSetNext | trabalhos/uva_10608_friends/uva_friends.go:62-64 | appending the next index as a singleton keeps every counter right |
| UnionFind.MakeSetOther | trabalhos/uva_10608_friends/uva_friends.go:11-15 | appending any other x breaks the structure |
| UnionFind.MembersAfterAppend | trabalhos/uva_10608_friends/uva_friends.go:11-15 | an appended element joining root's set adds exactly itself to that set |
| UnionFind.MakeSets | trabalhos/uva_10608_friends/uva_friends.go:62-64 | MakeSet(0) .. MakeSet(n-1) builds the constructor's n singletons |
| UnionFind.LargestUpToBounds | trabalhos/uva_10608_friends/uva_friends.go:66-81 | the running maximum over the sets of elements 0..k-1 bounds each of them and is attained by one |
| UnionFind.LargestSizeIsLargest | trabalhos/uva_10608_friends/uva_friends.go:66-81 | on a non-empty structure a value is the largest set size exactly when it bounds every set and is attained |
| UnionFind.MembersAfterMerge | trabalhos/uva_11710_expensive_subway/DisjointSet.cpp:21-37 | after merge an element's set is the joined set when it was in x's or y's, and its old set otherwise |
| UnionFind.SingletonsLargest | trabalhos/uva_10608_friends/uva_friends.go:66 | the starting maximum 1 is the largest set size of the singletons |
| UnionFind.GroupAfterMerge | trabalhos/uva_10608_friends/uva_friends.go:25-49 | after a union every set is the joined one or unchanged, and no set shrinks |
| UnionFind.LargestAfterMerge | trabalhos/uva_10608_friends/uva_friends.go:76-78 | taking the maximum with the joined set's size keeps the running value the largest set size |
| UnionFind.LargestAfterUnion | trabalhos/uva_10608_friends/uva_friends.go:76-78 | folding the size Union returns into the running maximum keeps it the largest set size |
| UnionFind.Step | trabalhos/uva_10608_friends/uva_friends.go:68-81 | one turn keeps the structure consistent and never lowers the running maximum |
| UnionFind.StepLargest | trabalhos/uva_10608_friends/uva_friends.go:68-81 | a running maximum equal to the largest set size stays equal after a turn |
| UnionFind.UnionAll | trabalhos/uva_10608_friends/uva_friends.go:68-81 | folding every pair, from a structure whose largest set has size 1, ends with the running maximum equal to the largest set size |
| UnionFind.LargestGroup | trabalhos/uva_10608_friends/uva_friends.go:52-85 | one test prints the size of a largest group of friends once every pair is joined, and 1 when there are no citizens |
| UnionFind.PairsInPrefix | trabalhos/uva_10608_friends/uva_friends.go:73-76 | dropping the last pair keeps every pair within 1..n, and the last one names two citizens |
| Graphs.NewGraph | trabalhos/uva_11710_expensive_subway/Graph.cpp:10-13 | the sizing constructor yields size vertices, the requested direction and an empty list at every vertex |
| Graphs.AppendEdge | trabalhos/uva_11710_expensive_subway/Graph.cpp:20-27 | the edge goes to the end of the vertex's list and, when undirected, (weight, vertex) to the end of the destination's list; no other list changes and destinations stay in range |
| Graphs.AppendEdgeOccurrences | trabalhos/uva_11710_expensive_subway/Graph.cpp:20-27 | in an undirected graph appending adds one occurrence of the edge at its vertex and one of the reverse edge at its destination, and nothing else |
| Graphs.AppendEdgeSymmetric | trabalhos/uva_11710_expensive_subway/Graph.cpp:23-26 | appending to an undirected graph keeps every list's entries matched by reverse entries |
| Graphs.Build | trabalhos/uva_11710_expensive_subway/Graph.cpp:20-27 | a graph built by appending edges has the given size, in-range destinations, and symmetric lists when undirected |
| Graphs.WeightAfterAppend | trabalhos/uva_11710_expensive_subway/Graph.cpp:20-27 | appending adds the edge's weight once to the total of a directed graph and twice to an undirected one |
| Graphs.ReachableSymmetric | trabalhos/uva_11710_expensive_subway/Graph.cpp:23-26 | in an undirected graph reachability is symmetric |
| Graphs.ReachableAfterAppend | trabalhos/uva_11710_expensive_subway/Graph.cpp:20-27 | appending an edge never makes a vertex unreachable |
| Graphs.AdjacentAfterAppend | trabalhos/uva_11710_expensive_subway/Graph.cpp:20-27 | appending keeps every adjacency and adds the new edge's, in both directions when undirected |
| Graphs.ClosedHoldsReachable | trabalhos/uva_11710_expensive_subway/Graph.cpp:42-60 | a vertex set holding the start and closed under adjacency holds every reachable vertex |
| Graphs.PushNeighbours | trabalhos/uva_11710_expensive_subway/Graph.cpp:49-58 | the inner loop pushes the destination of every entry of v's list, in list order, on top of the old stack, and all of them are reachable from the start |
| Graphs.DfsSkip | trabalhos/uva_11710_expensive_subway/Graph.cpp:43-46 | popping an already-visited vertex keeps the search invariant |
| Graphs.DfsVisit | trabalhos/uva_11710_expensive_subway/Graph.cpp:46-58 | marking a popped vertex and pushing its list keeps the search invariant |
| Graphs.MarksCoverReachable | trabalhos/uva_11710_expensive_subway/Graph.cpp:42-62 | once the stack is empty the marks cover every vertex reachable from the start |
| Graphs.Dfs | trabalhos/uva_11710_expensive_subway/Graph.cpp:29-63 | a vertex is marked visited exactly when it is reachable from the start along the adjacency lists |
| Graphs.IsConnected | trabalhos/uva_11710_expensive_subway/Graph.cpp:65-78 | on a graph with at least one vertex the answer is true exactly when every vertex is reachable from vertex 0 |
| Kruskal.Candidates | trabalhos/uva_11710_expensive_subway/Graph.cpp:90-99 | the edge list holds exactly the adjacency entries of the graph, each tagged with its source vertex |
| Kruskal.CandidatesUpToMembers | trabalhos/uva_11710_expensive_subway/Graph.cpp:92-99 | after the first k vertices the edge list holds exactly their entries |
| Kruskal.Insert | trabalhos/uva_11710_expensive_subway/Graph.cpp:101 | inserting into a sorted list keeps it sorted by ((weight, destination), source) and adds exactly the one entry |
| Kruskal.InsertBehind | trabalhos/uva_11710_expensive_subway/Graph.cpp:101 | an entry that does not go first can be inserted behind the head without breaking the order or the contents |
| Kruskal.Sort | trabalhos/uva_11710_expensive_subway/Graph.cpp:101 | the sorted edge list is ordered by ((weight, destination), source) and is a permutation of the input |
| Kruskal.SortedUnique | trabalhos/uva_11710_expensive_subway/Graph.cpp:101 | a list has only one sorted arrangement, so any correct sort yields the same edge order |
| Kruskal.SameFirst | trabalhos/uva_11710_expensive_subway/Graph.cpp:101 | two sorted arrangements of one list start with the same entry |
| Kruskal.CandidatesInRange | trabalhos/uva_11710_expensive_subway/Graph.cpp:90-101 | both endpoints of every sorted entry are vertices of the graph |
| Kruskal.Tree | trabalhos/uva_11710_expensive_subway/Graph.cpp:85-132 | the intended result is an undirected graph on the same vertices with symmetric lists |
| Kruskal.TreeAppend | trabalhos/uva_11710_expensive_subway/Graph.cpp:131-132 | accepting one more entry appends its edge to the tree |
| Kruskal.SpanningInit | trabalhos/uva_11710_expensive_subway/Graph.cpp:85-104 | the empty tree and the singleton sets agree: each set is a component of the tree |
| Kruskal.SpanningFind | trabalhos/uva_11710_expensive_subway/Graph.cpp:122-123 | the two finds of the loop body keep the sets and the tree in agreement |
| Kruskal.SpanningMerge | trabalhos/uva_11710_expensive_subway/Graph.cpp:130-135 | accepting an entry joining two sets and merging their roots keeps the sets equal to the tree's components |
| Kruskal.SpanningComponents | trabalhos/uva_11710_expensive_subway/Graph.cpp:125-130 | while the sets and the tree agree, two vertices share a set exactly when the tree connects them, which is the cycle test the code relies on |
| Kruskal.EntriesAfterMerge | trabalhos/uva_11710_expensive_subway/Graph.cpp:131-134 | after the merge the new entry and every old one lie within one set |
| Kruskal.SizeMinusOne | trabalhos/uva_11710_expensive_subway/Graph.cpp:116 | graphSize - 1 in size_t arithmetic is the predecessor for a non-empty graph and wraps to SIZE_MAX for an empty one |
| Kruskal.NoCycleAppend | trabalhos/uva_11710_expensive_subway/Graph.cpp:130-132 | accepting an entry whose ends the tree does not yet connect keeps the accepted edges cycle-free |
| Kruskal.ScanStart | trabalhos/uva_11710_expensive_subway/Graph.cpp:104-112 | before the loop the invariant holds with singleton sets and nothing accepted |
| Kruskal.AcceptedOrder | trabalhos/uva_11710_expensive_subway/Graph.cpp:119-132 | accepted entries are drawn, in order, from the scanned prefix of the sorted list |
| Kruskal.ScannedAfterMerge | trabalhos/uva_11710_expensive_subway/Graph.cpp:130-135 | after merging the roots of entry i every entry up to i has both ends in one set |
| Kruskal.FindKeeps | trabalhos/uva_11710_expensive_subway/Graph.cpp:122-123 | path compression in the two finds keeps the loop invariant |
| Kruskal.ConsiderRejects | trabalhos/uva_11710_expensive_subway/Graph.cpp:125-130 | an entry whose ends already share a set is skipped and the invariant still holds past it |
| Kruskal.Consider | trabalhos/uva_11710_expensive_subway/Graph.cpp:119-136 | one loop pass leaves the two ends of the entry in one set and appends the entry to the accepted ones exactly when they were in different sets before |
| Kruskal.ConsiderAccepts | trabalhos/uva_11710_expensive_subway/Graph.cpp:130-136 | an entry joining two sets is accepted, its roots merged, and the invariant holds past it |
| Kruskal.ConsiderKeeps | trabalhos/uva_11710_expensive_subway/Graph.cpp:116-137 | one pass of the loop body keeps the invariant |
| Kruskal.ScanFrom | trabalhos/uva_11710_expensive_subway/Graph.cpp:116-137 | the loop stops at the end of the list or once size-1 entries are accepted, with its invariant intact |
| Kruskal.KruskalScan | trabalhos/uva_11710_expensive_subway/Graph.cpp:80-137 | the loop over the sorted edge list ends with the accepted entries sorted, drawn from the list, and every scanned entry inside one set |
| Kruskal.KruskalMst | trabalhos/uva_11710_expensive_subway/Graph.cpp:80-140 | the corrected tree, with each accepted edge recorded as (weight, destination), is an undirected symmetric graph on the same vertices |
| Kruskal.KruskalForest | trabalhos/uva_11710_expensive_subway/Graph.cpp:116-137 | the result never closes a cycle, accepted edges plus final sets number the vertices, at most size-1 edges are accepted, and the corrected tree's components are the final sets |
| Kruskal.DrawnFromGraph | trabalhos/uva_11710_expensive_subway/Graph.cpp:90-101 | an entry drawn from any reordering of the edge list is an entry of the graph |
| Kruskal.AcceptedFromGraph | trabalhos/uva_11710_expensive_subway/Graph.cpp:119-131 | every accepted entry is an entry of the input graph |
| Kruskal.ReverseEntry | trabalhos/uva_11710_expensive_subway/Graph.cpp:23-26 | in an undirected graph every entry's reverse is an entry too |
| Kruskal.TreeWithin | trabalhos/uva_11710_expensive_subway/Graph.cpp:131-132 | a tree of accepted entries holds only entries of the input graph, at the same vertex and with the same weight |
| Kruskal.KruskalEdgesOriginal | trabalhos/uva_11710_expensive_subway/Graph.cpp:131-132 | each edge of the intended result is an original edge with the same weight |
| Kruskal.KruskalReachableInGraph | trabalhos/uva_11710_expensive_subway/Graph.cpp:130-132 | vertices joined in the result are joined in the input graph |
| Kruskal.CoveredJoinsAdjacent | trabalhos/uva_11710_expensive_subway/Graph.cpp:116-137 | once the whole list is scanned, adjacent vertices of the graph share a set |
| Kruskal.ClosedConnectedOneSet | trabalhos/uva_11710_expensive_subway/Graph.cpp:114-116 | sets closed under adjacency in a connected graph form a single set |
| Kruskal.ConnectedOneSet | trabalhos/uva_11710_expensive_subway/Graph.cpp:114-137 | on a connected graph the loop ends with a single set |
| Kruskal.KruskalSpans | trabalhos/uva_11857_driving_range/Graph.hpp:59-67 | on a connected graph the intended result connects every vertex to vertex 0 |
| Kruskal.AllAcceptedIffConnected | trabalhos/uva_11857_driving_range/uva_11857.cpp:483-512 | exactly size-1 entries are accepted if and only if the undirected graph is connected |
| Kruskal.TreeWeights | trabalhos/uva_11710_expensive_subway/Graph.cpp:85-132 | the lists of an undirected tree hold every accepted weight twice, as written and corrected alike |
| Kruskal.KruskalWeight | trabalhos/uva_11710_expensive_subway/Graph.cpp:85-132 | the result's lists sum to twice the accepted weight, with the self-loops as written and with the intended edges |
| Kruskal.AsWrittenTree | trabalhos/uva_11710_expensive_subway/Graph.cpp:131-132 | appending (weight, source) at the source yields an undirected graph on the same vertices |
| Kruskal.KruskalMstAsWritten | trabalhos/uva_11710_expensive_subway/Graph.cpp:80-140 | the tree `kruskalMST` returns as written has the graph's vertices and holds nothing but self-loops |
| Kruskal.AsWrittenSelfLoops | trabalhos/uva_11710_expensive_subway/Graph.cpp:131-132 | as written, every entry of the result points back at its own vertex |
| Kruskal.SelfLoopsDisconnected | trabalhos/uva_11710_expensive_subway/Graph.cpp:131-132 | a graph made only of self-loops joins no two distinct vertices |
| Kruskal.AsWrittenDisconnected | trabalhos/uva_11710_expensive_subway/Graph.cpp:131-132 | as written, the result joins no two distinct vertices whatever the input |
| Kruskal.TwoCities | trabalhos/uva_11857_driving_range/uva_11857.cpp:409-417 | the two-city example is a well-formed undirected graph on two vertices |
| Kruskal.TwoCitiesConnected | trabalhos/uva_11857_driving_range/uva_11857.cpp:409-417 | the two-city example is connected |
| Kruskal.AsWrittenCounterexample | trabalhos/uva_11710_expensive_subway/Graph.cpp:131-132 | on two connected cities the result as written leaves them apart while the corrected result joins them |
| DrivingRange.RunningMax | trabalhos/uva_11857_driving_range/uva_11857.cpp:479-504 | minCarRange is non-negative, bounds every accepted weight, and is 0 or one of the accepted weights |
| DrivingRange.RunningMaxSorted | trabalhos/uva_11857_driving_range/uva_11857.cpp:465-505 | on the sorted scan the running maximum is the weight of the last accepted edge (0 when that is negative): the bottleneck edge |
| DrivingRange.ListMax | trabalhos/uva_11857_driving_range/uva_11857.cpp:429-433 | the commented-out inner loop ends at least at its start value, bounds every weight of the list and is the start or one of them |
| DrivingRange.AdjMax | trabalhos/uva_11857_driving_range/uva_11857.cpp:428-434 | the commented-out outer loop bounds every weight found in the lists and is the start or one of them |
| DrivingRange.MaxEntryWeight | trabalhos/uva_11857_driving_range/uva_11857.cpp:426-434 | the commented-out range is non-negative, bounds every weight in the tree's lists and is 0 or one of them |
| DrivingRange.EntryWeightsAppend | trabalhos/uva_11857_driving_range/uva_11857.cpp:229-236 | appending an edge adds exactly its weight to the weights found in the lists |
| DrivingRange.TreeEntryWeights | trabalhos/uva_11857_driving_range/uva_11857.cpp:498-499 | both the tree as written and the corrected tree hold exactly the accepted weights in their lists |
| DrivingRange.FixedTreeWeights | trabalhos/uva_11857_driving_range/uva_11857.cpp:498-499 | the corrected tree holds exactly the accepted weights in its lists |
| DrivingRange.AsWrittenTreeWeights | trabalhos/uva_11857_driving_range/uva_11857.cpp:498-499 | the self-loop tree as written still holds exactly the accepted weights in its lists |
| DrivingRange.AcceptedWeightsAppend | trabalhos/uva_11857_driving_range/uva_11857.cpp:504 | accepting an edge adds exactly its weight to the accepted weights |
| DrivingRange.MaxAgrees | trabalhos/uva_11857_driving_range/uva_11857.cpp:419-444 | the inline running maximum equals the largest weight in either tree's lists |
| DrivingRange.AcceptedSorted | trabalhos/uva_11857_driving_range/uva_11857.cpp:465-486 | the accepted edges come out in ascending (weight, destination, source) order |
| DrivingRange.DriveConnected | trabalhos/uva_11857_driving_range/uva_11857.cpp:483-512 | a range is printed exactly when there is a city and the road graph is connected; otherwise IMPOSSIBLE |
| DrivingRange.Drive | trabalhos/uva_11857_driving_range/uva_11857.cpp:465-512 | a printed range is non-negative and at least the weight of every edge the scan accepted |
| DrivingRange.DriveCities | trabalhos/uva_11857_driving_range/uva_11857.cpp:508-512 | with at least one city a range is printed exactly when the graph is connected |
| DrivingRange.DriveNoCity | trabalhos/uva_11857_driving_range/uva_11857.cpp:483-508 | with no city graphSize - 1 wraps around, so IMPOSSIBLE is printed |
| DrivingRange.DriveRange | trabalhos/uva_11857_driving_range/uva_11857.cpp:479-512 | the printed range equals the largest weight in the lists of kruskalMST() (as written and corrected), and is the weight of the last accepted edge, 0 when negative |
| DrivingRange.DriveRangeTrees | trabalhos/uva_11857_driving_range/uva_11857.cpp:419-444 | the printed range equals what the commented-out approach computes on kruskalMST() |
| DrivingRange.DriveRangeLast | trabalhos/uva_11857_driving_range/uva_11857.cpp:483-505 | the printed range is the weight of the last accepted edge, or 0 when that is negative |
| Prim.MinIndex | trabalhos/uva_11710_expensive_subway/Graph.cpp:151-174 | the top of the min-heap is an element no larger than any other under the order of std::pair |
| Prim.Remove | trabalhos/uva_11710_expensive_subway/Graph.cpp:176 | popping removes exactly that one element |
| Prim.PushList | trabalhos/uva_11710_expensive_subway/Graph.cpp:159-187 | pushing a vertex's list keeps the old heap and adds exactly one (edge, vertex) element per entry of the list |
| Prim.CountMarkTwo | trabalhos/uva_11710_expensive_subway/Graph.cpp:178-181 | marking both ends of an edge with an unmarked end adds at least one vertex to the tree |
| Prim.RejectKeeps | trabalhos/uva_11710_expensive_subway/Graph.cpp:176-178 | a popped edge with both ends in the tree is dropped and the invariant still holds |
| Prim.AcceptReaches | trabalhos/uva_11710_expensive_subway/Graph.cpp:178-181 | an accepted edge leaves a vertex the tree already reaches from the start, so its ends are reached too |
| Prim.TreeOkAppend | trabalhos/uva_11710_expensive_subway/Graph.cpp:178-182 | accepting an edge of the graph that adds a vertex keeps the accepted edges original, no more than the marked vertices, and the marks reachable along the tree |
| Prim.AcceptKeeps | trabalhos/uva_11710_expensive_subway/Graph.cpp:178-188 | accepting the popped edge, marking its ends and pushing the destination's list keeps the invariant and marks a new vertex |
| Prim.AcceptTree | trabalhos/uva_11710_expensive_subway/Graph.cpp:178-182 | the tree facts survive accepting an edge with an unmarked end, and the number of marked vertices grows |
| Prim.AcceptFrontier | trabalhos/uva_11710_expensive_subway/Graph.cpp:180-187 | after the pushes the heap again holds the edges of every expanded vertex |
| Prim.PendingAfterAccept | trabalhos/uva_11710_expensive_subway/Graph.cpp:180-187 | every entry of an expanded vertex is still in the heap or joins two tree vertices |
| Prim.ExitCovers | trabalhos/uva_11710_expensive_subway/Graph.cpp:172 | when the loop stops, every vertex the graph reaches from the start is in the tree, provided the start has an edge |
| Prim.PrimStart | trabalhos/uva_11710_expensive_subway/Graph.cpp:147-164 | before the loop the heap holds exactly the start's list, nothing is marked and the tree is empty, satisfying the invariant |
| Prim.PrimExit | trabalhos/uva_11710_expensive_subway/Graph.cpp:172-191 | after the loop the result is an undirected graph of the same size whose entries are all edges of the input, and it covers what the start reaches |
| Prim.PrimMst | trabalhos/uva_11710_expensive_subway/Graph.cpp:142-192 | sizeMST never exceeds the marked vertices nor the graph size; every entry of the result is an original edge; every marked vertex is reached along the result; on a graph connected from a start with an edge every reachable vertex is marked; a start with no edge gives an empty tree |
| Prim.CountNone | trabalhos/uva_11710_expensive_subway/Graph.cpp:148 | a fresh all-false inMST counts no vertex |
| MaxOLouco.SetRoad | provas/prova2/max_o_louco/main.cpp:85-86 | the road's length is written at (a, b) and (b, a) and every other entry is unchanged |
| MaxOLouco.BuildMatrix | provas/prova2/max_o_louco/main.cpp:75-87 | reading the roads yields an n-by-n matrix |
| MaxOLouco.BuildMatrixSymmetric | provas/prova2/max_o_louco/main.cpp:85-86 | the road matrix is symmetric |
| MaxOLouco.BuildMatrixUnjoined | provas/prova2/max_o_louco/main.cpp:75 | an entry no road joins stays -1 |
| MaxOLouco.BuildMatrixLastJoin | provas/prova2/max_o_louco/main.cpp:78-87 | an entry holds the length of the last road read between its two cities, after the 1-based to 0-based conversion |
| MaxOLouco.BuildMatrixEntries | provas/prova2/max_o_louco/main.cpp:75-87 | the matrix is symmetric, -1 where no road was read, and otherwise the length of the last road read between the two cities |
| MaxOLouco.BuildMatrixInput | provas/prova2/max_o_louco/main.cpp:75-91 | roads read with non-negative lengths give a matrix whose entries are lengths or -1 |
| MaxOLouco.WeightNonNegative | provas/prova2/max_o_louco/main.cpp:50 | with non-negative lengths and prices a hop costs a non-negative amount |
| MaxOLouco.MinEntry | provas/prova2/max_o_louco/main.cpp:32-38 | the top of the min-heap is an entry no larger than any other under the order of std::pair<int, int> |
| MaxOLouco.MeasureFalls | provas/prova2/max_o_louco/main.cpp:55-57 | when no cost goes up, either an unreached vertex became reached or the sum of the costs fell, so the search terminates |
| MaxOLouco.ImproveKeeps | provas/prova2/max_o_louco/main.cpp:56-57 | setting dist[v] to the cost through u and prev[v] to u keeps every parent link usable and earlier in the (cost, stamp) order |
| MaxOLouco.RelaxSkip | provas/prova2/max_o_louco/main.cpp:44-55 | a missing road (-1), a road longer than T or no strict improvement leaves v alone and keeps the inner-loop invariant |
| MaxOLouco.RelaxImprove | provas/prova2/max_o_louco/main.cpp:55-63 | a strict improvement along a usable road updates dist, prev and the queue and keeps the inner-loop invariant |
| MaxOLouco.ImproveLower | provas/prova2/max_o_louco/main.cpp:55-56 | a relaxation only lowers a cost, so no cost rises above its value before the pass |
| MaxOLouco.ImproveReaches | provas/prova2/max_o_louco/main.cpp:50-56 | after trying the road to v every usable road from u to 0..v leads to a cost at most u's cost plus the hop |
| MaxOLouco.ImproveQueue | provas/prova2/max_o_louco/main.cpp:62 | pushing (dist[v], v) keeps the old queue as a prefix and every queued vertex reached |
| MaxOLouco.ImprovedStep | provas/prova2/max_o_louco/main.cpp:55-63 | every vertex changed so far changed through u, along a usable road, to u's cost plus the hop, with u as parent and its cost queued |
| MaxOLouco.TryRoad | provas/prova2/max_o_louco/main.cpp:41-64 | one pass of the inner loop skips an absent road, and improves v only along a road no longer than T to a strictly lower cost |
| MaxOLouco.TryRoads | provas/prova2/max_o_louco/main.cpp:41-64 | after all roads out of u are tried the inner-loop invariant holds for every vertex |
| MaxOLouco.Relax | provas/prova2/max_o_louco/main.cpp:41-64 | relaxing u keeps every parent link usable, raises no cost, keeps u's cost, leaves every usable road out of u relaxed, and changes a vertex only to u's cost plus the hop with u as parent and the new cost queued |
| MaxOLouco.RelaxStart | provas/prova2/max_o_louco/main.cpp:41 | before the inner loop the invariant holds with nothing changed |
| MaxOLouco.RelaxDone | provas/prova2/max_o_louco/main.cpp:64 | the inner loop's invariant at its end gives what Relax promises |
| MaxOLouco.PopKeeps | provas/prova2/max_o_louco/main.cpp:38-39 | popping u and relaxing it keeps every reached vertex queued or relaxed |
| MaxOLouco.OthersStay | provas/prova2/max_o_louco/main.cpp:39 | popping the top removes no entry of another vertex |
| MaxOLouco.ShortestPath | provas/prova2/max_o_louco/main.cpp:23-68 | prev starts at -1 and the start keeps -1; every other parent is joined to its child by a road no longer than T; every final cost is the least route cost, over roads no longer than T, of the sum of length times price at the departure city; a vertex is reached exactly when such a route exists |
| MaxOLouco.Chain | provas/prova2/max_o_louco/main.cpp:109-113 | the walk back along the parent links, read from the start, is a route over usable roads whose cost is at most the vertex's cost |
| MaxOLouco.RelaxedBound | provas/prova2/max_o_louco/main.cpp:37-65 | once every reached vertex is relaxed no route beats the computed costs |
| MaxOLouco.ShortestFinal | provas/prova2/max_o_louco/main.cpp:65-67 | when the queue is empty the parents are usable roads, the costs are least route costs, and the parent chains realise them |
| MaxOLouco.Reconstruct | provas/prova2/max_o_louco/main.cpp:109-117 | the stack of the walk back holds the route from city 0 to city N-1, each city the parent of the next |
| MaxOLouco.ChainStep | provas/prova2/max_o_louco/main.cpp:110-113 | the start's walk is itself; any other walk is its parent's walk extended, the parent being earlier in the (cost, stamp) order |
| MaxOLouco.ChainLinks | provas/prova2/max_o_louco/main.cpp:110-113 | along a walk each city is the parent of the next |
| MaxOLouco.RouteDrivable | provas/prova2/max_o_louco/main.cpp:130-133 | every road of a route found by the search is no longer than T, so the abort at lines 130-133 never fires |
| MaxOLouco.TooLongStep | provas/prova2/max_o_louco/main.cpp:122-133 | a road longer than T lies ahead exactly when the next road is one or one lies further on |
| MaxOLouco.Drive | provas/prova2/max_o_louco/main.cpp:122-171 | the replay aborts exactly when some road ahead is longer than T |
| MaxOLouco.Lookahead | provas/prova2/max_o_louco/main.cpp:145-169 | on a route whose roads fit the tank, the lookahead never lowers the tank and never fills it beyond T |
| MaxOLouco.Replay | provas/prova2/max_o_louco/main.cpp:119-171 | the replay of a route with a road longer than T prints -1 |
| MaxOLouco.DriveLevel | provas/prova2/max_o_louco/main.cpp:119-171 | on a route whose roads fit the tank the replay arrives and the tank level stays in [0, T] |
| MaxOLouco.DriveFree | provas/prova2/max_o_louco/main.cpp:137-169 | when the tank already holds the rest of the route nothing is bought and the tank falls by the route's length |
| MaxOLouco.ReplayFree | provas/prova2/max_o_louco/main.cpp:119-137 | the tank starts full, so a route whose roads together fit in T costs 0 |
| MaxOLouco.LookaheadPaysForFuel | provas/prova2/max_o_louco/main.cpp:149-166 | with the clamp corrected, the lookahead charges exactly the fuel it adds to the tank, at the price of the city where it stands |
| MaxOLouco.LookaheadAsWrittenCounterexample | provas/prova2/max_o_louco/main.cpp:159-163 | as written, a full 10-litre tank facing a 10-long road gets 10 litres refunded while its level does not change |
| MaxOLouco.DriveSpends | provas/prova2/max_o_louco/main.cpp:137-169 | with the clamp corrected and non-negative prices the money spent never falls along the route |
| MaxOLouco.Line | provas/prova2/max_o_louco/main.cpp:75-87 | the four-city example is a 4-by-4 road matrix |
| MaxOLouco.ReplayAsWrittenCounterexample | provas/prova2/max_o_louco/main.cpp:145-166 | on four cities in a line, roads of 10, T = 10 and prices 1, 1, 2, 1, the replay as written reports 20 |
| MaxOLouco.ReplayIntendedExample | provas/prova2/max_o_louco/main.cpp:137-169 | the same trip with the clamp corrected costs 30: ten litres at price 1 and ten at price 2 |
| MaxOLouco.Solve | provas/prova2/max_o_louco/main.cpp:70-177 | one case prints 0 for a single city, -1 exactly when no route of roads no longer than T joins city 0 to city N-1, and otherwise the replay of a cheapest route, reconstructed from the parents; with the corrected clamp the answer is non-negative |
| FlowNetwork.NewGraph | trabalhos/uri_1362_minha_camiseta_me_serve/main.cpp:26-27 | the constructor yields a size-by-size matrix of zero capacities |
| FlowNetwork.AddEdge | trabalhos/uri_1362_minha_camiseta_me_serve/main.cpp:29-31 | add_edge sets the capacity of (from, to) to the weight whatever it was, and no other capacity changes |
| FlowNetwork.AddEdgeOverwrites | trabalhos/uri_1362_minha_camiseta_me_serve/main.cpp:29-31 | a second add_edge on the same pair overwrites the first |
| FlowNetwork.Chain | trabalhos/uri_1362_minha_camiseta_me_serve/main.cpp:43-55 | the parent links from a visited vertex back to the source form a path of positive entries, discovered in increasing order and following the parents |
| FlowNetwork.ClosedReach | trabalhos/uri_1362_minha_camiseta_me_serve/main.cpp:71-82 | when every visited vertex has all its positive neighbours visited, a path from a visited vertex reaches only visited vertices |
| FlowNetwork.VisitOne | trabalhos/uri_1362_minha_camiseta_me_serve/main.cpp:76-78 | visiting an unvisited vertex lowers the count of unvisited vertices by one |
| FlowNetwork.VisitKeepsClosed | trabalhos/uri_1362_minha_camiseta_me_serve/main.cpp:76-79 | visiting and queueing one more vertex keeps every expanded vertex closed |
| FlowNetwork.SearchExact | trabalhos/uri_1362_minha_camiseta_me_serve/main.cpp:71-84 | a finished search with every visited vertex closed has visited exactly the vertices reachable from the source |
| FlowNetwork.VisitKeepsTree | trabalhos/uri_1362_minha_camiseta_me_serve/main.cpp:76-79 | visiting v from the visited vertex u keeps every visited non-source vertex joined by a positive entry to an earlier-visited parent |
| FlowNetwork.Expand | trabalhos/uri_1362_minha_camiseta_me_serve/main.cpp:75-81 | the inner loop visits, parents and queues every unvisited positive neighbour of u, after which u is closed and the search tree is kept |
| FlowNetwork.ExpandVisit | trabalhos/uri_1362_minha_camiseta_me_serve/main.cpp:76-79 | visiting and queueing an unvisited positive neighbour keeps the inner loop's invariant |
| FlowNetwork.VisitKeepsQueue | trabalhos/uri_1362_minha_camiseta_me_serve/main.cpp:77 | the queue with v appended holds only visited vertices |
| FlowNetwork.VisitKeepsClock | trabalhos/uri_1362_minha_camiseta_me_serve/main.cpp:76-79 | stamping v with the discovery clock keeps every stamp behind the clock |
| FlowNetwork.VisitKeepsMarks | trabalhos/uri_1362_minha_camiseta_me_serve/main.cpp:78 | visiting v keeps every earlier mark |
| FlowNetwork.SeenVisit | trabalhos/uri_1362_minha_camiseta_me_serve/main.cpp:76-79 | visiting v extends the set of looked-at neighbours past v |
| FlowNetwork.SeenSkip | trabalhos/uri_1362_minha_camiseta_me_serve/main.cpp:76 | a visited v or a non-positive entry is skipped and the looked-at neighbours extend past v |
| FlowNetwork.ExpandDone | trabalhos/uri_1362_minha_camiseta_me_serve/main.cpp:75-81 | once every vertex has been looked at, u is closed |
| FlowNetwork.Bfs | trabalhos/uri_1362_minha_camiseta_me_serve/main.cpp:64-85 | BFS visits exactly the vertices reachable through positive residual entries, answers whether the sink was visited, and gives every visited vertex other than the source a visited parent joined to it by a positive entry |
| FlowNetwork.ChainDistinct | trabalhos/uri_1362_minha_camiseta_me_serve/main.cpp:43-45 | the parent chain visits no vertex twice, so the walk back from the sink terminates |
| FlowNetwork.ChainParentPath | trabalhos/uri_1362_minha_camiseta_me_serve/main.cpp:43-46 | the chain of the search tree is a repetition-free path from the source to the sink along the parent links |
| FlowNetwork.PathFlow | trabalhos/uri_1362_minha_camiseta_me_serve/main.cpp:40-46 | the bottleneck starts at INT_MAX, is positive, fits every edge of the path, and is INT_MAX or the residual of one of its edges |
| FlowNetwork.PushStep | trabalhos/uri_1362_minha_camiseta_me_serve/main.cpp:52-54 | one step of the augmenting walk takes the flow off the edge into v and adds it to the reverse edge |
| FlowNetwork.Augment | trabalhos/uri_1362_minha_camiseta_me_serve/main.cpp:50-56 | augmenting subtracts the flow from every forward edge of the parent chain, adds it to every reverse edge, and changes nothing else |
| FlowNetwork.RowSumUpdate | trabalhos/uri_1362_minha_camiseta_me_serve/main.cpp:53-54 | changing one residual entry changes its row's total by the difference |
| FlowNetwork.PushedNonNegative | trabalhos/uri_1362_minha_camiseta_me_serve/main.cpp:50-56 | pushing the bottleneck along a path without repeated vertices leaves every residual non-negative |
| FlowNetwork.PushedPairs | trabalhos/uri_1362_minha_camiseta_me_serve/main.cpp:53-54 | augmenting preserves adj[u][v] + adj[v][u] for every pair |
| FlowNetwork.PushedSourceRow | trabalhos/uri_1362_minha_camiseta_me_serve/main.cpp:50-56 | augmenting lowers the residual capacity out of the source by exactly the flow |
| FlowNetwork.Round | trabalhos/uri_1362_minha_camiseta_me_serve/main.cpp:39-58 | one round after a successful search pushes a positive bottleneck, keeps residuals non-negative and opposite pairs summed, and lowers the source's capacity out by the bottleneck |
| FlowNetwork.MaxFlow | trabalhos/uri_1362_minha_camiseta_me_serve/main.cpp:34-62 | max_flow is the sum of the positive bottlenecks pushed, equal to what the source lost of its capacity out, so within [0, that capacity]; residuals stay non-negative and opposite pairs keep their sum; at the end the sink is out of reach |
| FlowNetwork.SizeOf | trabalhos/uri_1362_minha_camiseta_me_serve/main.cpp:96-98 | a label maps to its size node 1..6; any other label reads as 0, the source, because the map inserts it with a zero value |
| FlowNetwork.Div6 | trabalhos/uri_1362_minha_camiseta_me_serve/main.cpp:121 | C++ division by 6 truncates toward zero |
| FlowNetwork.SourceEdges | trabalhos/uri_1362_minha_camiseta_me_serve/main.cpp:120-122 | the first loop gives the source capacity num_shirts/6 to each of the first k size nodes and changes nothing else |
| FlowNetwork.VolunteerEdges | trabalhos/uri_1362_minha_camiseta_me_serve/main.cpp:128-134 | the second loop gives capacity 1 from each size a volunteer names to that volunteer and changes nothing else |
| FlowNetwork.SinkEdges | trabalhos/uri_1362_minha_camiseta_me_serve/main.cpp:140-142 | the third loop gives capacity 1 from each volunteer to the sink and changes nothing else |
| FlowNetwork.Network | trabalhos/uri_1362_minha_camiseta_me_serve/main.cpp:108-142 | the network has 6 + num_volunteers + 2 vertices and exactly the capacities num_shirts/6 from the source to each size, 1 from a named size to its volunteer, 1 from each volunteer to the sink, and zero elsewhere |
| FlowNetwork.NetworkNonNegative | trabalhos/uri_1362_minha_camiseta_me_serve/main.cpp:108-142 | with a non-negative number of shirts no capacity is negative |
| FlowNetwork.NetworkSourceCapacity | trabalhos/uri_1362_minha_camiseta_me_serve/main.cpp:120-122 | when every label is a known size, the capacity out of the source is 6 times num_shirts/6 |
| FlowNetwork.Serve | trabalhos/uri_1362_minha_camiseta_me_serve/main.cpp:104-151 | the answer is YES exactly when the flow equals the number of volunteers; the flow lies within the source's capacity, so with known labels a YES needs at least as many whole sixes of shirts as volunteers |
| KnightsInFen.Key | trabalhos/uva_10422_knights_in_fen/main.cpp:37-44 | the key is as long as all rows together |
| KnightsInFen.BoardKey | trabalhos/uva_10422_knights_in_fen/main.cpp:37-44 | `getKey` of a board is as long as all its rows together |
| KnightsInFen.KeyRows | trabalhos/uva_10422_knights_in_fen/main.cpp:37-44 | character j of row i sits in the key right after the characters of the rows before row i: the key is the rows laid end to end in order |
| KnightsInFen.KeyInjective | trabalhos/uva_10422_knights_in_fen/main.cpp:37-44 | two non-empty square boards with the same key have the same rows, so the key may stand for the board in the depth table |
| KnightsInFen.MoveTable | trabalhos/uva_10422_knights_in_fen/main.cpp:71-74 | the move table has eight entries per axis, each a knight jump (one square one way, two the other), all eight different, hence every knight jump |
| KnightsInFen.Swap | trabalhos/uva_10422_knights_in_fen/main.cpp:55-56 | exchanging two squares of a square board leaves a square board of the same size |
| KnightsInFen.SwapAt | trabalhos/uva_10422_knights_in_fen/main.cpp:55-56 | after the exchange the target holds the empty square's character, the empty square holds the target's, and every other square is unchanged |
| KnightsInFen.SwapTwice | trabalhos/uva_10422_knights_in_fen/main.cpp:55-56 | exchanging the same two squares again restores the rows |
| KnightsInFen.Successor | trabalhos/uva_10422_knights_in_fen/main.cpp:50-57 | a legal move keeps the board movable and the move table, and moves the empty square by the move's offsets |
| KnightsInFen.OppositeJump | trabalhos/uva_10422_knights_in_fen/main.cpp:71-74 | every jump of the table has its negation in the table |
| KnightsInFen.SuccessorUndone | trabalhos/uva_10422_knights_in_fen/main.cpp:50-74 | after a legal move, the opposite jump is legal and brings back the original board |
| KnightsInFen.LegalMoves | trabalhos/uva_10422_knights_in_fen/main.cpp:49-53 | the indices from i on that pass the bounds check: each legal, strictly increasing, and every legal index from i on present |
| KnightsInFen.Adjacents | trabalhos/uva_10422_knights_in_fen/main.cpp:46-62 | `getAdjacents` yields one board per legal move, at most as many as the table has moves |
| KnightsInFen.Neighbours | trabalhos/uva_10422_knights_in_fen/main.cpp:46-62 | `getAdjacents` as the search calls it yields at most one board per entry of the move table |
| KnightsInFen.AdjacentIsMove | trabalhos/uva_10422_knights_in_fen/main.cpp:46-62 | each adjacent board is the result of some legal move |
| KnightsInFen.MoveIsAdjacent | trabalhos/uva_10422_knights_in_fen/main.cpp:46-62 | the result of every legal move is among the adjacent boards |
| KnightsInFen.AdjacentMoves | trabalhos/uva_10422_knights_in_fen/main.cpp:46-62 | a board is adjacent exactly when some legal move produces it |
| KnightsInFen.SuccessorValid | trabalhos/uva_10422_knights_in_fen/main.cpp:50-57 | a move keeps the board square and non-empty, the knight table, and the blank as the only blank character, at the new empty square |
| KnightsInFen.SameKeySameBoard | trabalhos/uva_10422_knights_in_fen/main.cpp:37-44 | two valid boards with the same key are the same board, empty square included |
| KnightsInFen.NeighboursReversible | trabalhos/uva_10422_knights_in_fen/main.cpp:46-62 | every neighbour of a valid board is valid and has that board among its own neighbours |
| KnightsInFen.NeighboursValid | trabalhos/uva_10422_knights_in_fen/main.cpp:46-62 | validity is kept by every move of the search |
| KnightsInFen.NeighboursUndone | trabalhos/uva_10422_knights_in_fen/main.cpp:46-62 | every move of the search can be undone from a valid board |
| KnightsInFen.KeysApart | trabalhos/uva_10422_knights_in_fen/main.cpp:37-44 | the key separates valid boards |
| KnightsInFen.FinalValid | trabalhos/uva_10422_knights_in_fen/main.cpp:68-76 | the finished board, with the empty square at (2, 2), is a valid board |
| KnightsInFen.Answer | trabalhos/uva_10422_knights_in_fen/main.cpp:122-130 | the verdict is solvable exactly when the key was recorded with depth 1 to 11, and then the moves are the depth less one |
| KnightsInFen.Solve | trabalhos/uva_10422_knights_in_fen/main.cpp:78-131 | a solvable verdict names fewer than 11 moves and a game of that many moves from the finished board reaching the given key; every game of at most 10 moves reaching the key makes the verdict solvable with no more moves |
| KnightsInFen.BothWays | trabalhos/uva_10422_knights_in_fen/main.cpp:78-100 | a game from a valid board to the finished board, reversed, is a game of the same length from the finished board to that board |
| KnightsInFen.BothWaysBack | trabalhos/uva_10422_knights_in_fen/main.cpp:78-100 | a game from the finished board, reversed, is a game from its last board back to the finished board |
| LevelSearch.GameSteps | trabalhos/uva_10422_knights_in_fen/main.cpp:92-97 | a game is exactly a sequence that begins at the start and whose every position is adjacent to the one before, which is how the search steps from a board to its adjacents |
| LevelSearch.GameKeeps | trabalhos/uva_10422_knights_in_fen/main.cpp:78-100 | a property of the start kept by every move holds at the end of every game |
| LevelSearch.GameReversed | trabalhos/uva_10422_knights_in_fen/main.cpp:78-100 | when moves can be undone, a game read backwards is a game from its last position back to the start |
| LevelSearch.RecordNew | trabalhos/uva_10422_knights_in_fen/main.cpp:93-96 | recording an unseen key one move past a game of d - 1 positions, at depth d, keeps every recorded key backed by a game as long as its depth, and the queued level consistent |
| LevelSearch.ExpandedStep | trabalhos/uva_10422_knights_in_fen/main.cpp:86-99 | once a whole level has been expanded, every key below the next level whose depth less one is under the limit has all its neighbours recorded at most one level deeper |
| LevelSearch.VisitNew | trabalhos/uva_10422_knights_in_fen/main.cpp:93-96 | an adjacent position with an unseen key is queued and its key recorded at the current depth plus one, with a game of that length to it |
| LevelSearch.Visit | trabalhos/uva_10422_knights_in_fen/main.cpp:92-97 | after the inner loop every neighbour of the position has a key recorded at most one level deeper; keys recorded before keep their depths, and only keys at the next depth are added |
| LevelSearch.ExpandOne | trabalhos/uva_10422_knights_in_fen/main.cpp:86-98 | a position whose depth less one is under the limit has all its neighbours recorded; one at or past the limit changes neither the table nor the queue |
| LevelSearch.ExpandLevel | trabalhos/uva_10422_knights_in_fen/main.cpp:86-99 | processing one level of the queue builds the next level, keeps every recorded key backed by a game, and leaves the next level empty once the depth less one reaches the limit |
| LevelSearch.Finished | trabalhos/uva_10422_knights_in_fen/main.cpp:86 | with the queue empty, every key is recorded within limit + 1 and every key under the limit has been expanded |
| LevelSearch.Explore | trabalhos/uva_10422_knights_in_fen/main.cpp:78-100 | the search from the start at depth 1 records keys only at depths reached by a game of that many positions, and expands every key whose depth less one is under the limit |
| LevelSearch.Shortest | trabalhos/uva_10422_knights_in_fen/main.cpp:78-100 | every game of at most limit + 1 positions ends at a recorded key whose depth is at most the game's length, so depths are shortest |
| LevelSearch.AllShortest | trabalhos/uva_10422_knights_in_fen/main.cpp:78-100 | the shortest-depth property for every game within the limit at once |
| LevelSearch.Search | trabalhos/uva_10422_knights_in_fen/main.cpp:78-100 | every recorded depth is between 1 and limit + 1 and is the length of a game reaching its key; every game within the limit reaches a recorded key no deeper than the game is long |
| LightUp.NewBoard | trabalhos/uri_1275_light_up/light_up.cpp:67-77 | a new board has the requested rows and columns, every cell an EMPTY square, and no lamps |
| LightUp.NewBoardState | trabalhos/uri_1275_light_up/light_up.cpp:67-92 | a new board has every lamp's row and column lit (it has none) and every barrier satisfied (it has none), and it is fully lit only when it has no square |
| LightUp.IsFullyLit | trabalhos/uri_1275_light_up/light_up.cpp:79-92 | the scan answers true exactly when every non-barrier cell is LIT or holds a LAMP |
| LightUp.LampsAround | trabalhos/uri_1275_light_up/light_up.cpp:109-133 | counting lamps over the direction table is counting lamps above, right, below and left, each only when on the board |
| LightUp.IsValidBarrier | trabalhos/uri_1275_light_up/light_up.cpp:94-136 | true exactly when (row, col) is on the board, is a barrier, and is ANY or has exactly its number of lamps on its four sides |
| LightUp.IsAllBarriersValid | trabalhos/uri_1275_light_up/light_up.cpp:138-150 | the scan answers true exactly when every barrier on the board is valid |
| LightUp.IsWinningConfig | trabalhos/uri_1275_light_up/light_up.cpp:153-163 | a board wins exactly when it is fully lit and every barrier is valid |
| LightUp.NearDirections | trabalhos/uri_1275_light_up/light_up.cpp:241 | the four entries of the adjacency table reach exactly the cells that share a side with (row, col) |
| LightUp.BlockDirs | trabalhos/uri_1275_light_up/light_up.cpp:254-312 | the listed neighbours that are EMPTY squares become BLOCKED; every other cell, barriers included, is unchanged |
| LightUp.BlockAround | trabalhos/uri_1275_light_up/light_up.cpp:165-196 | reports true exactly on a ZERO barrier; otherwise the board is unchanged; on a ZERO barrier only the EMPTY squares sharing a side with it become BLOCKED, and the lamp count is kept |
| LightUp.BlockAroundTwice | trabalhos/uri_1275_light_up/light_up.cpp:165-196 | blocking around the same ZERO barrier twice is the same as once |
| LightUp.LightLeft | trabalhos/uri_1275_light_up/light_up.cpp:217-219 | the leftward loop lights every cell of the row from i down to the nearest barrier, and changes nothing else |
| LightUp.LightRight | trabalhos/uri_1275_light_up/light_up.cpp:221-223 | the rightward loop lights every cell of the row from i up to the nearest barrier, and changes nothing else |
| LightUp.LightUp | trabalhos/uri_1275_light_up/light_up.cpp:226-228 | the upward loop lights every cell of the column from row i up to the nearest barrier, and changes nothing else |
| LightUp.LightDown | trabalhos/uri_1275_light_up/light_up.cpp:230-232 | the downward loop lights every cell of the column from row i down to the nearest barrier, and changes nothing else |
| LightUp.LightAll | trabalhos/uri_1275_light_up/light_up.cpp:212-232 | the four loops after the lamp is placed leave a lamp at (row, col), LIT on every square the lamp sees along its row and column up to a barrier, and all else unchanged |
| LightUp.InsertLamp | trabalhos/uri_1275_light_up/light_up.cpp:198-235 | fails, with the board unchanged, unless (row, col) is an EMPTY square on the board; on success one more lamp is counted, the square holds the lamp, every square it sees is LIT, nothing else changes, and the barriers stay put |
| LightUp.SeesSymmetric | trabalhos/uri_1275_light_up/light_up.cpp:216-232 | a square lit from another lights it back: seeing along an unobstructed row or column is mutual |
| LightUp.ClearSame | trabalhos/uri_1275_light_up/light_up.cpp:216-232 | what a lamp sees depends only on where the barriers are |
| LightUp.InsertConsistent | trabalhos/uri_1275_light_up/light_up.cpp:198-235 | on a board where every square a lamp sees is lit, inserting a lamp keeps that so and keeps every earlier lamp, because a lamp only goes onto an unlit EMPTY square |
| LightUp.Place | trabalhos/uri_1275_light_up/light_up.cpp:350-352 | inserting lamps at the listed sides adds at most one lamp per side, keeps the barriers, and reports success exactly when some lamp went in |
| LightUp.PlaceConsistent | trabalhos/uri_1275_light_up/light_up.cpp:297-298 | inserting a series of lamps keeps the board consistent and keeps its lamps |
| LightUp.BlockKeeps | trabalhos/uri_1275_light_up/light_up.cpp:165-196 | blocking never changes whether a barrier is valid, and keeps a consistent board consistent |
| LightUp.Candidate | trabalhos/uri_1275_light_up/light_up.cpp:248-266 | one copy of the board per choice, kept only if some lamp went in and the barrier is then valid; a kept copy has more lamps and the same barriers |
| LightUp.CandidateConsistent | trabalhos/uri_1275_light_up/light_up.cpp:289-315 | every kept copy of a consistent board is consistent and keeps the board's lamps |
| LightUp.Generate | trabalhos/uri_1275_light_up/light_up.cpp:247-267 | at most one board per choice, each with more lamps, the same barriers, and the barrier at (row, col) valid |
| LightUp.GenerateCount | trabalhos/uri_1275_light_up/light_up.cpp:288-316 | around a numbered barrier, every generated board has exactly that many lamps on its four sides |
| LightUp.GenerateConsistent | trabalhos/uri_1275_light_up/light_up.cpp:338-370 | every generated board of a consistent board is consistent and keeps the board's lamps |
| LightUp.OneChoices | trabalhos/uri_1275_light_up/light_up.cpp:247-263 | four choices, one per side, each naming valid sides |
| LightUp.TwoChoices | trabalhos/uri_1275_light_up/light_up.cpp:282 | the six pairs of the possib table, each naming valid sides |
| LightUp.ThreeChoices | trabalhos/uri_1275_light_up/light_up.cpp:332 | the four triples of the possib table, each naming valid sides |
| LightUp.FourChoices | trabalhos/uri_1275_light_up/light_up.cpp:388-404 | one choice with all four sides |
| LightUp.LightUpBarrierOne | trabalhos/uri_1275_light_up/light_up.cpp:237-270 | no boards unless (row, col) is a ONE barrier; at most four boards, each with more lamps, the same barriers and exactly one lamp beside the barrier |
| LightUp.LightUpBarrierTwo | trabalhos/uri_1275_light_up/light_up.cpp:272-319 | no boards unless (row, col) is a TWO barrier; at most six boards, each with more lamps, the same barriers and exactly two lamps beside the barrier |
| LightUp.LightUpBarrierThree | trabalhos/uri_1275_light_up/light_up.cpp:321-373 | no boards unless (row, col) is a THREE barrier; at most four boards, each with more lamps, the same barriers and exactly three lamps beside the barrier |
| LightUp.LightUpBarrierFour | trabalhos/uri_1275_light_up/light_up.cpp:375-412 | no boards unless (row, col) is a FOUR barrier; at most one board, with more lamps, the same barriers and four lamps beside the barrier |
| AntColony.ListedAppend | trabalhos/uri_1135_colonia_de_formigas/main.cpp:26-27 | after appending an entry to one list, an entry is listed exactly when it was listed before or is the appended one at that hill |
| AntColony.EntriesAppend | trabalhos/uri_1135_colonia_de_formigas/main.cpp:26-27 | each push adds exactly one entry to the lists |
| AntColony.BuildStep | trabalhos/uri_1135_colonia_de_formigas/main.cpp:21-28 | listing the latest line at both of its ends, after the earlier lines, lists exactly the tunnels all the lines give each hill |
| AntColony.JoinsLast | trabalhos/uri_1135_colonia_de_formigas/main.cpp:26-27 | the tunnels of all lines are those of the earlier lines plus the last line's tunnel, in both directions |
| AntColony.Build | trabalhos/uri_1135_colonia_de_formigas/main.cpp:19-28 | the lists hold one list per hill; an entry is listed at a hill exactly when some line joins that hill to the entry's hill with the entry's length; the lines give two entries each |
| AntColony.BuildWellFormed | trabalhos/uri_1135_colonia_de_formigas/main.cpp:19-28 | every entry of the built lists names a hill of the case |
| AntColony.Narrow | trabalhos/uri_1135_colonia_de_formigas/main.cpp:53 | reading the long length into a 32-bit int keeps it within the int range and congruent to it modulo 2^32 |
| AntColony.NarrowKeeps | trabalhos/uri_1135_colonia_de_formigas/main.cpp:53 | a length already in the int range reads back unchanged |
| AntColony.WalkExtend | trabalhos/uri_1135_colonia_de_formigas/main.cpp:53-56 | following the j-th tunnel of the last hill extends a walk, and adds the narrowed length to its total, as the distance update does |
| AntColony.VisitCounts | trabalhos/uri_1135_colonia_de_formigas/main.cpp:51 | marking an unvisited hill removes one hill from those not yet visited |
| AntColony.StepTraced | trabalhos/uri_1135_colonia_de_formigas/main.cpp:53-56 | after setting the distance of the hill at the far end of a tunnel, that hill, if unvisited, has a walk from the source of that length, and the expanded hill keeps its own walk |
| AntColony.Push | trabalhos/uri_1135_colonia_de_formigas/main.cpp:53-56 | the push puts the far hill on top of the stack and sets its distance to that of the expanded hill plus the narrowed tunnel length; every unvisited hill on the stack keeps a walk from the source of its distance |
| AntColony.Expand | trabalhos/uri_1135_colonia_de_formigas/main.cpp:50-57 | expanding a hill keeps the stack below untouched, and puts every neighbour of every visited hill other than the destination on the stack or among the visited |
| AntColony.WalkStays | trabalhos/uri_1135_colonia_de_formigas/main.cpp:42-59 | a visited set that holds the source, leaves out the destination and is closed under tunnels holds every hill of every walk from the source |
| AntColony.Unreachable | trabalhos/uri_1135_colonia_de_formigas/main.cpp:42-59 | when the stack empties before the destination is popped, no walk leads from the source to the destination |
| AntColony.PopDest | trabalhos/uri_1135_colonia_de_formigas/main.cpp:46-48 | popping the destination marks it visited and ends the search with the distance recorded for it |
| AntColony.MarkNew | trabalhos/uri_1135_colonia_de_formigas/main.cpp:50-51 | marking a popped hill visited keeps the walk to it sound and simple, and keeps the stack pending and closed |
| AntColony.PopNew | trabalhos/uri_1135_colonia_de_formigas/main.cpp:50-57 | popping an unvisited hill other than the destination marks it, expands it, and visits one more hill |
| AntColony.PopOld | trabalhos/uri_1135_colonia_de_formigas/main.cpp:42-45 | popping an already visited hill only drops it from the stack |
| AntColony.Pop | trabalhos/uri_1135_colonia_de_formigas/main.cpp:42-59 | one pass of the loop keeps the search state and either visits one more hill or shrinks the stack |
| AntColony.Query | trabalhos/uri_1135_colonia_de_formigas/main.cpp:37-59 | a distance is printed exactly when some walk joins the two hills; it is then the length of such a walk, a walk repeating no hill when no tunnel loops back; 0 when the hills are one; no hill expanded twice and the destination never expanded |
| AntTree.Parent | trabalhos/uri_1135_colonia_de_formigas/main.cpp:21-27 | in a tree case every hill after hill 0 hangs from a hill with a smaller number |
| AntTree.BelowAbove | trabalhos/uri_1135_colonia_de_formigas/main.cpp:21-27 | a hill hanging below another has a number at least as large |
| AntTree.BelowParent | trabalhos/uri_1135_colonia_de_formigas/main.cpp:21-27 | a hill hanging below a non-root hill also hangs below its parent |
| AntTree.Meet | trabalhos/uri_1135_colonia_de_formigas/main.cpp:21-27 | the meeting hill lies at or above both hills, and both hang below it |
| AntTree.MeetBelow | trabalhos/uri_1135_colonia_de_formigas/main.cpp:21-27 | when a hill hangs below y, the two meet at y |
| AntTree.MeetUp | trabalhos/uri_1135_colonia_de_formigas/main.cpp:21-27 | replacing a hill that does not lie above the other by its parent does not move the meeting hill |
| AntTree.JoinsTree | trabalhos/uri_1135_colonia_de_formigas/main.cpp:26-27 | in a tree case every line joins a hill and its parent, with the length the line of the lower hill gives |
| AntTree.TreeEdge | trabalhos/uri_1135_colonia_de_formigas/main.cpp:19-28 | every listed tunnel joins a hill and its parent, with the length of the lower hill's line |
| AntTree.ParentEdges | trabalhos/uri_1135_colonia_de_formigas/main.cpp:26-27 | each hill after hill 0 lists its parent, and the parent lists it, with the length of its line |
| AntTree.TreeNoSelfLoops | trabalhos/uri_1135_colonia_de_formigas/main.cpp:26-27 | in a tree case no tunnel leads from a hill to itself |
| AntTree.BuildHangs | trabalhos/uri_1135_colonia_de_formigas/main.cpp:19-28 | the built lists of a tree case hold only tree edges |
| AntTree.Crossing | trabalhos/uri_1135_colonia_de_formigas/main.cpp:42-59 | a walk between the inside and the outside of the subtree of x passes through x and its parent |
| AntTree.PathUp | trabalhos/uri_1135_colonia_de_formigas/main.cpp:21-27 | climbing from c to its parent lengthens the tree path from a hill below c by c's tunnel |
| AntTree.PathDown | trabalhos/uri_1135_colonia_de_formigas/main.cpp:21-27 | descending to b from its parent lengthens the tree path from a hill not below b by b's tunnel |
| AntTree.StepLength | trabalhos/uri_1135_colonia_de_formigas/main.cpp:53-56 | adding a new hill to a walk that repeats no hill adds the tunnel length to the tree distance from the start |
| AntTree.PathLength | trabalhos/uri_1135_colonia_de_formigas/main.cpp:42-59 | in a tree case a walk that repeats no hill has the tree-path length between its ends |
| AntTree.WalkPrepend | trabalhos/uri_1135_colonia_de_formigas/main.cpp:26-27 | a tunnel in front of a walk gives a longer walk |
| AntTree.WalkJoin | trabalhos/uri_1135_colonia_de_formigas/main.cpp:26-27 | two walks meeting at a hill join into one walk from the first start to the second end |
| AntTree.ReachBefore | trabalhos/uri_1135_colonia_de_formigas/main.cpp:26-27 | a hill joined to one from which t is reachable also reaches t |
| AntTree.ReachJoin | trabalhos/uri_1135_colonia_de_formigas/main.cpp:26-27 | reachability is transitive |
| AntTree.Rooted | trabalhos/uri_1135_colonia_de_formigas/main.cpp:21-28 | every hill of a tree case reaches hill 0 and is reached from it |
| AntTree.Connected | trabalhos/uri_1135_colonia_de_formigas/main.cpp:21-28 | any two hills of a tree case are joined by a walk |
| AntTree.TreeAnswer | trabalhos/uri_1135_colonia_de_formigas/main.cpp:37-59 | in a tree case every query's answer is the length of the tree path between its hills |
| AntTree.Case | trabalhos/uri_1135_colonia_de_formigas/main.cpp:18-64 | every query is answered exactly when a walk joins its hills, with 0 for a hill to itself; in a tree case every query is answered with the tree-path distance |

## Left out

- Input and output: the `cin`/`scanf`/`fmt.Scanf` loops, `freopen`, sentinel-terminated case loops and output formatting. Each model takes the parsed values as parameters and returns what would be printed.
- `Board::show` (`trabalhos/uri_1275_light_up/light_up.cpp:414-437`) only prints.
- The queue-of-boards search in the Light Up `main` (`trabalhos/uri_1275_light_up/light_up.cpp:470-592`) is exhaustive, exponential orchestration. Only the `Board` operations it calls are modelled.
- Three driver files repeat logic the model already covers:
  - `trabalhos/uva_11710_expensive_subway/main.cpp`: a name-to-index map and halving of the tree weight;
  - `trabalhos/uva_11857_driving_range/main.cpp`: a copy of the bottleneck logic of `uva_11857.cpp`;
  - `trabalhos/uva_10608_friends/uva_friends.cpp`: the same fold over `merge` as `uva_friends.go`.
- `trabalhos/uva_10608_friends/DisjointSet.h` holds declarations only.
- The dollars driver's floating-point handling (`round(amount * 100)`, `setprecision`) is not modelled. Amounts are given in cents.
- `priority_queue` tie-breaking: the model picks some least entry. Which of several equal entries the library pops is not modelled.
- `unordered_map` hashing: the tables are Dafny maps, and a missing key reads as 0 just as a fresh map slot does.
- `malloc`/`free` in `main.c` are not modelled: arrays are sequences.
- MaxSumC.MaxSumMatrix: the C `int` sums are unbounded integers, so an overflow of a sub-rectangle sum is not modelled. Only the entries are required to fit in an `int`.
- MaxSumC.MaxSumArray: the running sums are unbounded integers; C `int` overflow is not modelled.
- MaxSumGo.ArrayMaxSum: as written (shift by 31) it is proved only for slices whose run sums lie in [-2^30, 2^30), where every difference `Max` takes fits in 32 bits; this holds for every input UVa problem 108 allows (an N by N matrix with N at most 100 and entries within [-127, 127]). Beyond it the shift by 31 goes wrong (ArrayMaxSumAsWrittenCounterexample). The corrected shift is proved for run sums within [-2^62, 2^62); wrap-around of the sums themselves is not modelled.
- MaxSumGo.MatrixMaxSum: likewise requires every rectangle sum to lie in [-2^30, 2^30) as written (at most 127 * 100 * 100 in the problem), or in [-2^62, 2^62) with the corrected shift.
- MaxSumGo.ArrayScan: carries the same bound on run sums as ArrayMaxSum, for the same reason.
- MaxSumGo.StripScan: carries the same bound on rectangle sums as MatrixMaxSum, for the same reason.
- MaxSumGo.MatrixScan: carries the same bound on rectangle sums as MatrixMaxSum, for the same reason.
- MaxOLouco.Solve: costs and tank levels are unbounded integers, so `int` overflow of `dist` or of the replay total is not modelled. The `INT_MAX` distance sentinel is the `Inf` case of a datatype.
- UnionFind.Union: the `unsigned short` set sizes of the friends structure are unbounded counters. Sizes above 65535 would wrap in the source.
- Bacteria.FinalPopulation: the running total is an unbounded integer, so 32-bit overflow of `int total` before the final remainder is not modelled.
- Kruskal.KruskalScan: the result is proved to be a forest of original edges that spans each component. That it has the least total weight is not proved.
- Prim.PrimMst: the tree is proved to be made of graph edges and to reach every vertex it marks from the start. Every vertex joined to the start is proved marked, and the accepted count is proved to stay within `graphSize`. That the tree has the least total weight is not proved.
- FlowNetwork.MaxFlow: proved to leave no augmenting path in the residual network, with the flow equal to the source's lost residual capacity. The max-flow min-cut theorem, which makes that flow maximum, is not proved.
- FlowNetwork.Serve: the YES answer is proved to mean exactly "flow equals the number of volunteers". That YES means an assignment of shirts exists depends on the flow being maximum, which is not proved (see the previous item).
- MaxOLouco.Solve: requires every road length and every price to be non-negative, the problem's input domain; the source reads both with `cin` and checks neither. Outside that domain the relaxation at provas/prova2/max_o_louco/main.cpp:49-55 keeps no visited set and need not terminate: a road of length 1 between two cities priced -1 is a cycle of negative cost, and `dist` keeps falling around it. That case is not modelled.
- MaxOLouco.ShortestPath: requires the same domain (`Input`: matrix entries are -1 for "no road" or a non-negative length, prices are non-negative), for the same reason.
- FlowNetwork.Serve: requires a non-negative number of shirts; the problem gives 1 <= N <= 36 with N a multiple of 6, which the source reads at trabalhos/uri_1362_minha_camiseta_me_serve/main.cpp:106 and does not check. A negative N would give the source's edges negative capacities (main.cpp:121), which the BFS never follows (`> 0`, main.cpp:76); that case is not modelled.
- MaxOLouco.Solve: the refuelling replay takes the clamp as a parameter. `AsWritten` is the code as written; `Intended` is the corrected top-up (see Findings).
- max_o_louco: this model follows the code, in which the tank starts full (`provas/prova2/max_o_louco/main.cpp:119`). A route whose roads together fit in one tank therefore costs 0.

## Findings

| source | as written | input that shows it | evidently intended | confidence | as-written member | corrected member |
|---|---|---|---|---|---|---|
| trabalhos/uva_108_maximum_number/main.go:10-15 | `Max` takes the sign of `x - y` from `sub >> 31`, which is the sign only while the difference fits in 32 bits | `Max(2^31 + 1, 0)` returns `2^31` | the larger argument for all `int64` inputs (shift by 63) | not executed | MaxSumGo.MaxAsWrittenCounterexample | MaxSumGo.Max |
| trabalhos/uva_11710_expensive_subway/Graph.cpp:131-132 | `kruskalMST` appends the accepted edge at `nextEdge.second` (its source) with `(weight, source)`, so every tree edge is a self-loop | the two cities joined by one road (`Kruskal.TwoCities`): the graph is connected, the tree as written is not | append `(weight, destination)` at the source, so the tree spans every component | not executed | Kruskal.AsWrittenCounterexample | Kruskal.KruskalSpans |
| provas/prova2/max_o_louco/main.cpp:159-163 | when the lookahead's fill would overflow the tank, `fuel = T - partial_t` is computed after adding, so it is negative and the total is refunded | a line of four cities with roads of 10, tank 10, prices 1, 1, 2, 1: the replay prints 20 | top up only to a full tank and pay `(T - level) * price` for it: 30 on that input | not executed | MaxOLouco.ReplayAsWrittenCounterexample | MaxOLouco.LookaheadPaysForFuel |
