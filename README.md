# Verified model of five algorithms from C-Sharp-Algorithms

This project is a Dafny model of five parts of the C# algorithms collection:

- **Luhn**: the mod-10 checksum (`luhn.dfy`, module `Luhn`).
  - `GetSum` is a loop method, proved equal to a prefix-sum specification `LuhnSum`.
  - `Validate` and `GetLostNum` are functions over that specification.
  - Lemmas prove that the recovered digit is the unique digit that makes the number valid.
- **SortedList**: a list kept sorted, searched by binary search (`sorted_list.dfy`, module `SortedLists`).
  - It is a class whose `memory` field is reassigned by `Add`, `TryRemove` and `Clear`.
  - `IndexFor` is the binary-search `while` loop with its invariants.
- **ListBasedStack**: a LIFO stack over a linked list (`list_based_stack.dfy`, module `Stacks`).
  - It is a class whose `stack` field holds the values of the list, top first.
  - The sequence constructor is a loop of pushes.
- **Geohash.Encode**: geohash encoding (`geohash.dfy`, module `Geohash`).
  - One loop bisects two ranges held in two-element arrays, as the source's spans do.
  - It packs the bits five to a character and emits base-32 characters.
  - It is proved equal to a declarative specification: per-axis bisection bits, interleaved longitude first, read five at a time.
- **CollaborativeFiltering.PredictRating**: user-based collaborative filtering (`collaborative_filtering.dfy`).
  - The loop visits the users of the rating table in an arbitrary order.
  - It is proved to compute Σ sim·rating / Σ |sim| over the other users who rated the item, the target user excluded. The result is 0 for an unknown target user or when Σ |sim| ≤ 1e-10. The sums are taken over sets, so they do not depend on the visiting order.
  - The similarity strategy is a function parameter.

`wrappers.dfy` holds the `Option` type. `None` stands for the exceptions that `Peek`, `Pop` and the indexer throw.

## Model

| member | source | states |
|---|---|---|
| Luhn.Contribution | Algorithms/Other/Luhn.cs:36-41 | each character adds between 0 and 9; a character outside '0'..'9' adds 0 |
| Luhn.LuhnSumBounds | Algorithms/Other/Luhn.cs:32-43 | the Luhn sum of a string lies in [0, 9·length] |
| Luhn.GetSum | Algorithms/Other/Luhn.cs:30-44 | the loop returns the Luhn sum: non-digits are skipped, the digit at index i is doubled when i + length is even, and 9 is subtracted above 9; the sum lies in [0, 9·length] |
| Luhn.LuhnSumUpdate | Algorithms/Other/Luhn.cs:34-42 | changing one character changes the sum by that index's contribution only |
| Luhn.DigitChar | Algorithms/Other/Luhn.cs:24 | the character written for a digit 0..9 is a digit character of that value, as int.ToString gives it |
| Luhn.Replace | Algorithms/Other/Luhn.cs:20-24 | the result has the same length; every occurrence of the old character becomes the new one, every other character is kept, and none of the old character remains when the two differ |
| Luhn.LastIndexOf | Algorithms/Other/Luhn.cs:19 | the result is -1 or an index holding the character, and no later index holds it |
| Luhn.ReplaceOnlyX | Algorithms/Other/Luhn.cs:20-24 | replacing every 'x' of a string whose only 'x' is at p writes one character at p |
| Luhn.FilledSum | Algorithms/Other/Luhn.cs:20-40 | filling the 'x' with digit d gives the sum with '0' there plus d, doubled and reduced when p is a doubled position |
| Luhn.GetLostNum | Algorithms/Other/Luhn.cs:17-27 | for every string, the answer is a digit 0..9 |
| Luhn.MissingIndexParity | Algorithms/Other/Luhn.cs:19-39 | the index from the right of the 'x' is odd exactly when GetSum doubles that position |
| Luhn.CheckDigitCompletes | Algorithms/Other/Luhn.cs:20 | sum·9 mod 10 is the one digit that brings a nonnegative sum to a multiple of 10 |
| Luhn.DoubleDigitSolves | Algorithms/Other/Luhn.cs:24-40 | the doubled-and-reduced digit equals c exactly when the digit is c/2 (c even) or (c+9)/2 (c odd) |
| Luhn.LostNumIsUniqueSolution | Algorithms/Other/Luhn.cs:14-27 | with exactly one 'x', a digit written over it validates if and only if it is GetLostNum's answer |
| Luhn.LostNumRoundTrip | Algorithms/Other/Luhn.cs:14-27 | with exactly one 'x', filling in GetLostNum's answer gives a number Validate accepts |
| Luhn.Validate | Algorithms/Other/Luhn.cs:14 | a string without digits (the empty string included) validates; its partners are LostNumRoundTrip and SingleDigitErrorDetected |
| Luhn.SingleDigitErrorDetected | Algorithms/Other/Luhn.cs:14-44 | changing one digit of a valid number to another digit makes it invalid |
| SortedLists.SortedUnique | DataStructures/SortedList.cs:17 | two sorted sequences with the same elements are equal, so after Add the sorted contents are determined by the old contents and the item |
| SortedLists.InsertKeepsSorted | DataStructures/SortedList.cs:17 | inserting at an index with smaller elements before it and larger ones after it keeps the list sorted |
| SortedLists.RemoveKeepsSorted | DataStructures/SortedList.cs:39 | removing one element keeps the list sorted |
| SortedLists.Midpoint | DataStructures/SortedList.cs:69 | the probed index lies in [left, right) and is their mean rounded down |
| SortedLists.MidpointAsWritten | DataStructures/SortedList.cs:69 | the source's midpoint, with 32-bit wrap-around and truncating division, is always half of an int, and equals the model's Midpoint while left + right fits in an int |
| SortedLists.MidpointAsWrittenOverflows | DataStructures/SortedList.cs:69 | on a list of 0x7FFFFFC7 elements, the second probe of the source's midpoint is negative |
| SortedLists.SortedList.constructor | DataStructures/SortedList.cs:11-14 | a new list is empty and sorted |
| SortedLists.SortedList.Count | DataStructures/SortedList.cs:16 | Count is the number of stored elements |
| SortedLists.SortedList.Get | DataStructures/SortedList.cs:18 | the indexer gives memory[i] exactly when 0 ≤ i < Count, and fails otherwise |
| SortedLists.SortedList.IndexFor | DataStructures/SortedList.cs:62-87 | the index lies in [0, Count]; when found it holds the item; when not found every element before it is smaller and every element from it on is larger; the loop ends because right − left decreases |
| SortedLists.SortedList.Add | DataStructures/SortedList.cs:17 | the list stays sorted, Count grows by 1, the multiset gains the item, and the item is inserted at one position with the rest in order |
| SortedLists.SortedList.Clear | DataStructures/SortedList.cs:19 | the list becomes empty |
| SortedLists.SortedList.Contains | DataStructures/SortedList.cs:22-26 | the answer is true if and only if some stored element equals the item |
| SortedLists.SortedList.TryRemove | DataStructures/SortedList.cs:33-43 | the answer is true exactly when the item was present; if so, one equal element is removed, Count drops by 1 and the rest stays in order; otherwise nothing changes |
| Stacks.ReverseAt | DataStructures/Stack/ListBasedStack.cs:14 | element k of the reversed items is item \|items\|−1−k |
| Stacks.ListBasedStack.constructor | DataStructures/Stack/ListBasedStack.cs:12 | a new stack is empty |
| Stacks.ListBasedStack.Single | DataStructures/Stack/ListBasedStack.cs:13 | the single-item constructor gives Count 1 with that item on top |
| Stacks.ListBasedStack.FromSeq | DataStructures/Stack/ListBasedStack.cs:14 | pushing the items in order leaves them reversed, the last item on top |
| Stacks.ListBasedStack.Count | DataStructures/Stack/ListBasedStack.cs:16 | Count is the number of stored items |
| Stacks.ListBasedStack.Clear | DataStructures/Stack/ListBasedStack.cs:17 | the stack becomes empty |
| Stacks.ListBasedStack.Contains | DataStructures/Stack/ListBasedStack.cs:18 | the answer is true if and only if some stored item equals the argument |
| Stacks.ListBasedStack.Peek | DataStructures/Stack/ListBasedStack.cs:20 | an empty stack fails; otherwise the result is the top item and nothing changes |
| Stacks.ListBasedStack.Pop | DataStructures/Stack/ListBasedStack.cs:22-28 | an empty stack fails and is left as it was; otherwise the top item is returned and removed, and Count drops by 1 |
| Stacks.ListBasedStack.Push | DataStructures/Stack/ListBasedStack.cs:30 | the item becomes the new top above the old contents, and Count grows by 1 |
| Stacks.PushThenPop | DataStructures/Stack/ListBasedStack.cs:22-30 | a push followed by a pop returns the pushed item and restores the previous contents |
| Stacks.DrainFromSeq | DataStructures/Stack/ListBasedStack.cs:14-28 | popping a stack built from a sequence until it is empty yields the items last first |
| Geohash.HalveSpec | Algorithms/Other/Geohash.cs:21-30 | the contract of Halve, one bisection step: a step's bit is 1 exactly when the value is above the midpoint (ties give 0); the range is halved, stays ordered, and still holds a value it held |
| Geohash.CellWidth | Algorithms/Other/Geohash.cs:21-30 | after n bisections the range has width (initial width) / 2^n |
| Geohash.CellHolds | Algorithms/Other/Geohash.cs:21-30 | the range stays ordered, and a value inside the initial range stays inside the narrowed range |
| Geohash.BitsValue | Algorithms/Other/Geohash.cs:24 | the value of b bits read most significant first is below 2^b |
| Geohash.PartialIndexBound | Algorithms/Other/Geohash.cs:24-36 | the index of a partial group plus the weight of its next bit stays within 32 |
| Geohash.SetNextBit | Algorithms/Other/Geohash.cs:24 | setting bit 4 − currentBit adds exactly that bit's weight to the index |
| Geohash.PartialIndexComplete | Algorithms/Other/Geohash.cs:24-38 | a completed group of five bits has the index of its bits read most significant first |
| Geohash.CharsAppend | Algorithms/Other/Geohash.cs:36 | emitting a completed group appends the alphabet character of its value |
| Geohash.CharsInAlphabet | Algorithms/Other/Geohash.cs:36 | every emitted character comes from the base-32 alphabet |
| Geohash.BitStream | Algorithms/Other/Geohash.cs:6-17 | the bit stream that the loop consumes has 60 bits, 5 for each of the 12 characters |
| Geohash.StreamBit | Algorithms/Other/Geohash.cs:13-31 | bit n of the stream is the next bisection bit of the axis whose turn it is, longitude on even steps |
| Geohash.NextState | Algorithms/Other/Geohash.cs:19-39 | one iteration takes exactly one bit, toggles the axis, and leaves the inactive axis's range and bit count untouched |
| Geohash.StepAgrees | Algorithms/Other/Geohash.cs:19-39 | the values the loop body computes (result, currentBit, index, axis and both ranges) are the fields of NextState |
| Geohash.NextStateFields | Algorithms/Other/Geohash.cs:19-39 | one step changes only the active axis's range, toggles the axis, advances currentBit within 0..4, and resets currentBit and the index after the fifth bit |
| Geohash.EncodeInvStep | Algorithms/Other/Geohash.cs:17-40 | one iteration keeps the loop invariant, and a completed group's index is in 0..31 |
| Geohash.EncodeInvCount | Algorithms/Other/Geohash.cs:6-17 | the number of steps taken is 5·(characters emitted) + currentBit, and at 12 characters currentBit is 0 |
| Geohash.EncodeInvDone | Algorithms/Other/Geohash.cs:17-41 | when the loop stops, the characters are those of the whole bit stream |
| Geohash.ReachedInv | Algorithms/Other/Geohash.cs:17-40 | every state the loop reaches satisfies the invariant and has taken as many bits as steps |
| Geohash.Encode | Algorithms/Other/Geohash.cs:9-42 | the result has 12 characters, all from the alphabet, and is the geohash of the interleaved bisection bits |
| CollaborativeFiltering.ReplayNext | Algorithms/RecommenderSystem/CollaborativeFiltering.cs:75-98 | one iteration skips the target user, users who have not rated the item and zero similarity, and otherwise adds \|sim\| and sim·rating |
| CollaborativeFiltering.ReplaySums | Algorithms/RecommenderSystem/CollaborativeFiltering.cs:72-99 | after visiting a set of users in any order, the accumulators are Σ\|sim\| and Σ sim·rating over the neighbours in that set |
| CollaborativeFiltering.ReplayConsulted | Algorithms/RecommenderSystem/CollaborativeFiltering.cs:77-89 | the similarity is consulted once for each user other than the target who rated the item, and for no one else |
| CollaborativeFiltering.ReplayTotalNonnegative | Algorithms/RecommenderSystem/CollaborativeFiltering.cs:72-97 | totalAbsSim is never negative during the loop |
| CollaborativeFiltering.Visit | Algorithms/RecommenderSystem/CollaborativeFiltering.cs:77-98 | an iteration skips everyone but a neighbour of a known target user, adds nothing to either sum for similarity 0, and never decreases totalAbsSim |
| CollaborativeFiltering.TotalAbsSimNonnegative | Algorithms/RecommenderSystem/CollaborativeFiltering.cs:97 | the final denominator is nonnegative |
| CollaborativeFiltering.Prediction | Algorithms/RecommenderSystem/CollaborativeFiltering.cs:67-101 | a nonzero prediction needs a known target user, Σ\|sim\| above 1e-10 and a nonzero Σ sim·rating; PredictRating, NoNeighboursPredictsZero and PredictionWithinRatings are its partners |
| CollaborativeFiltering.PredictRating | Algorithms/RecommenderSystem/CollaborativeFiltering.cs:61-102 | the result is 0 for a missing target user, 0 when Σ\|sim\| ≤ 1e-10, and Σ sim·rating / Σ\|sim\| otherwise; the similarity is consulted exactly once per neighbour and never for a missing target user |
| CollaborativeFiltering.NoNeighboursPredictsZero | Algorithms/RecommenderSystem/CollaborativeFiltering.cs:101 | when no other user rated the item, the prediction is 0 |
| CollaborativeFiltering.UninformativeUserIgnored | Algorithms/RecommenderSystem/CollaborativeFiltering.cs:77-95 | dropping a non-target user who has not rated the item, or whose similarity is 0, leaves the prediction unchanged |
| CollaborativeFiltering.PredictionWithinRatings | Algorithms/RecommenderSystem/CollaborativeFiltering.cs:97-101 | with nonnegative similarities, the prediction is a weighted average and lies between the lowest and highest neighbour ratings |
| CollaborativeFiltering.SampleNeighbours | Algorithms.Tests/RecommenderSystem/CollaborativeFilteringTests.cs:21-41 | in the test table, the neighbours of user1 for item1 are exactly user2 and user3 |
| CollaborativeFiltering.SampleTerms | Algorithms.Tests/RecommenderSystem/CollaborativeFilteringTests.cs:50-64 | with similarity 0.8, user2 adds 0.8 and 3.2 to the sums, user3 adds 0.8 and 2.4, and user1 adds nothing |
| CollaborativeFiltering.SamplePrediction | Algorithms.Tests/RecommenderSystem/CollaborativeFilteringTests.cs:59-64 | with similarity 0.8, user1's prediction for item1 is (0.8·4 + 0.8·3) / 1.6 = 3.5 |
| CollaborativeFiltering.SamplePredictRating | Algorithms.Tests/RecommenderSystem/CollaborativeFilteringTests.cs:59-71 | the method returns 3.5 on the test table and consults the similarity exactly twice |
| CollaborativeFiltering.SampleNonexistentItem | Algorithms.Tests/RecommenderSystem/CollaborativeFilteringTests.cs:105-111 | for an item nobody rated, the prediction is 0 whatever the similarity |

## Left out

- Doubles are modelled as unbounded reals in Geohash and CollaborativeFiltering. Rounding is not modelled, and neither is the order in which a Dictionary enumerates its entries, which under rounding can change the last bits of a sum. The loop picks an arbitrary unvisited user, and the specification sums over sets.
- Pearson similarity (`CalculateSimilarity`, Algorithms/RecommenderSystem/CollaborativeFiltering.cs:17-48, and SimilarityCalculatorBase.cs) is not modelled: it needs a square root. PredictRating takes the similarity as a function parameter, standing for the `ISimilarityCalculator` interface.
- The constructor's null check (Algorithms/RecommenderSystem/CollaborativeFiltering.cs:5-6) is not modelled: Dafny values are never null.
- CollaborativeFiltering.PredictRating: the similarity calls are recorded as a ghost sequence `consulted` that counts the calls. It does not record their arguments. Calls with similarity 0 are recorded although they add nothing.
- The rating table is a Dafny `map`, a value, so PredictRating cannot modify it.
- SortedList is modelled for `T = int` with the default comparer. A general `IComparer<T>` is not modelled, and neither is `IEnumerable` (`GetEnumerator`).
- The LinkedList behind ListBasedStack is modelled as the sequence of its values, first node first, not as linked nodes.
- Stacks.ListBasedStack.Peek: the source's `?? throw` would also throw when the top item is null; Dafny's type parameter has no null.
- Span, `stackalloc` and StringBuilder in Geohash become arrays and a sequence. `base32Index |= 1 << k` is modelled as adding 2^k. The bit is clear at that point, so the two agree.
- Geohash.Encode: coordinates are not validated by the source and are any reals here. CellHolds's containment holds only for a value inside the initial range.
- Luhn.GetSum: a Dafny string is a sequence of Unicode scalar values, while the source's `Length`, indices and `LastIndexOf` count UTF-16 code units. A character outside the Basic Multilingual Plane is one position here and two in the source, which flips the doubling parity of every digit before it. For example, "18😀" has length 4 in C#: the '1' is doubled, the sum is 10 and Validate accepts it; here the length is 3, the sum is 8 and Validate rejects it. The model is faithful for strings of BMP characters only.
- Luhn.GetSum: the 32-bit int overflow of `sum` is not modelled. It would need a string of more than 238 million characters.
- Luhn.GetLostNum: the 32-bit wrap of `GetSum(...) * 9` is not modelled. It happens once the sum passes 238,609,294, which about 26.5 million digits reach. C#'s truncating `%` then gives a negative check digit, and the even branch returns it. The model's result is a digit 0..9 for every string because its integers do not wrap.
- Luhn.GetLostNum is modelled for every string. Its properties are proved for strings with exactly one 'x'. With zero or several, `LastIndexOf` and `Replace` are modelled as the source computes them, but nothing more is claimed.
- `string.Replace` and `LastIndexOf` are modelled for single characters, which is how the source uses them.
- Exceptions are modelled as `None` results: the stack's InvalidOperationException and the indexer's ArgumentOutOfRangeException.

## Findings

| source | as written | input that shows it | evidently intended | confidence | as-written member | corrected member |
|---|---|---|---|---|---|---|
| DataStructures/SortedList.cs:69 | `(left + right) / 2` in 32-bit int arithmetic | a list of 0x7FFFFFC7 elements (the largest .NET allows), searching for an item above the middle element: left = 0x3FFFFFE4 and right = 0x7FFFFFC7 sum past 2^31 − 1, wrap negative, and give a negative index | a midpoint in [left, right), e.g. `left + (right - left) / 2` | not executed; requires a list of over 2^30 elements | SortedLists.MidpointAsWrittenOverflows | SortedLists.Midpoint |
