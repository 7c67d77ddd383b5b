# GeneticAlgorithmAdvSoft in Dafny

GeneticAlgorithmAdvSoft searches for test inputs with a genetic algorithm. It
targets five pairs of small algorithms, each a correct version and a defective
twin.

An *individual* carries a genome: a dict from argument names to values. It
also carries the scores of its last evaluation:
- fitness,
- coverage,
- failure count,
- detected-bug flag.

A *population* does three things:
- It evaluates its members one by one. A member whose evaluator raises gets a
  worst-case score.
- It selects members by tournament, by roulette wheel, or as elites.
- The operators build random individuals, cross over two parents, and mutate
  one child.

The *engine* (`GAEngine.run`) loops over the generations. In each one it:
1. scores the population with `evaluate_individual`;
2. keeps the elites and holds tournaments for the remaining places;
3. pairs the winners, crosses them over and mutates the children;
4. scores the new population with its own evaluator;
5. records per-generation statistics.

`evaluate_individual` gives an input its fitness:
- It runs the defective function under coverage measurement and compares the
  output with the correct function, the *oracle*.
- It counts one failure when the run crashes or the output is wrong.
- Fitness is coverage plus 50 per failure.

The problem-specific random generators in `random_generator.py` make the
inputs. The five problem pairs are:
- reverse pairs by merge sort;
- median of two sorted arrays by binary search;
- maximal rectangle by a histogram stack;
- search in a rotated array;
- decode ways by dynamic programming.

## How the model is built

Every `random.*` call becomes a nondeterministic choice (`:|`) within the
call's range, so each contract holds for every outcome of the draws.

Python exceptions become a `Failure(ValueError | IndexError | KeyError |
TypeError)` case of a `Result`.

Data:
- A genome is a sequence of `(name, Value)` pairs in insertion order.
- `Individual` and `Population` are classes whose fields are updated in place.
- Genes are immutable values. In the source, uniform crossover lets a child
  share nested lists with a parent; the model does not capture that sharing
  (see "Left out").

The two external calls become function parameters:
- `run_with_coverage` becomes `Target.run`.
- The problem's oracle becomes `Target.oracle`.

Each problem function is an imperative method, proved against a specification
function:
- the pair count;
- the rank statistic;
- the largest all-ones rectangle;
- index-or-minus-one;
- the number of token splittings.

Three defective twins are characterised exactly:
- `reverse_pairs_buggy` counts the pairs with `nums[i] >= 2*nums[j]`;
- `decode_ways_buggy` counts the splittings into "0".."9" and "01".."30";
- `maximal_rectangle_buggy` gives the largest area of an all-"1" rectangle
  whose right neighbour column is not all "1" over the rectangle's rows, or 0
  when there is none.

The rotated search twin is proved to follow its own probe sequence, and to
report only an index that holds the target. The median twin is proved to
raise only IndexError, to raise whenever nums1 is longer than a non-empty
nums2, and to give the median of sorted inputs when nums1 is no longer than
a non-empty nums2.

For each twin a concrete input shows where it goes wrong: `[0, 0]` for
reverse pairs, `[1, 2]` and `[]` for the median, an all-"1" matrix for the
rectangle, `[3, 1]` for the rotated search and `"0"` for decode ways.

### Behaviour worth knowing

The model follows the code.

- **Tournament sampling.** `select_tournament` draws with `random.sample`, so
  the individuals in one tournament are distinct. It raises ValueError when a
  selection is requested and the tournament size is not in 1..n. A size of 0
  also fails, because `max` of an empty sample raises.
- **Elite count.** `get_elite(n)` takes the slice `[:n]` of the sorted list,
  so a negative `n` drops members from the end.
- **Ordering.** `Individual.__lt__` compares fitness values, and raises
  TypeError when either fitness is None.
- **Reverse pairs.** `reverse_pairs_buggy` counts the pairs with
  `nums[i] >= 2*nums[j]`. It counts at least as many pairs as the correct
  version, and more exactly when some pair has `nums[i] == 2*nums[j]`.
- **List mutation.** An item appended by the list mutation can be perturbed
  again in the same pass, so an appended integer ends up in [-100, 100].
- **Elite scores.** The elites are scored again in the new population. Their
  genes carry over unchanged; their scores are recomputed.
- **Engine errors.** The engine raises ValueError for an empty population,
  because `max` of nothing raises. It also raises when the tournament cannot
  be held, since `random.sample` raises.
- **Crossover.** `crossover_structured` never fails inside the engine. Every
  genome there has its problem's one or two distinct keys, so the two-point
  path returns copies.

## Model

| member | source | states |
|---|---|---|
| Genes.Lookup | src/ga/operators.py:80-83 | `B[key]` raises KeyError exactly when the key is absent; otherwise the value is one stored under that key |
| Genes.LookupAt | src/ga/operators.py:78-84 | with distinct keys, looking up the key at position i yields the value at position i |
| Individuals.Individual.constructor | src/ga/individual.py:8-13 | a new individual holds the given genes, fitness None, coverage 0, no failures, no detected bug |
| Individuals.Individual.Copy | src/ga/individual.py:20-23 | `copy`/`clone`: a fresh object with every field equal to the source's |
| Individuals.Less | src/ga/individual.py:16-17 | `a < b` raises TypeError exactly when either fitness is None, and otherwise holds iff a's fitness is below b's |
| Individuals.LessIsStrictOrder | src/ga/individual.py:16-17 | where defined, `<` is irreflexive, asymmetric and transitive, and depends on fitness alone |
| Populations.Population.constructor | src/ga/population.py:7-8 | the population holds the given list |
| Populations.Evaluated | src/ga/population.py:19-38 | genes untouched and fitness set. An evaluator that raises leaves fitness 0, coverage 0, failures 0 and a detected bug. A returned fitness (0 if missing) becomes the score. A missing detected_bug becomes `failures > 0` |
| Populations.Population.Evaluate | src/ga/population.py:12-40 | same list, same order. Each member's new fields are what its own evaluator outcome dictates, whatever happens to the others; genes unchanged |
| Populations.FirstMax | src/ga/population.py:47 | the position `max` picks: no item beats it and every earlier item is strictly smaller |
| Populations.Winner | src/ga/population.py:46-47 | the tournament winner is a sampled position scoring at least as much as every sampled position |
| Populations.DistinctBelow | src/ga/population.py:46 | distinct positions below m are at most m, so no sample larger than the population exists |
| Populations.FullSampleCoversAll | src/ga/population.py:46 | a sample of n distinct positions out of n draws every position |
| Populations.FullTournamentPicksBest | src/ga/population.py:46-47 | a tournament as large as the population always picks a member of top score |
| Populations.Population.SelectTournament | src/ga/population.py:43-49 | ValueError exactly when rounds are wanted and the tournament size is not in 1..n. Otherwise exactly max(k, 0) distinct fresh copies, each a copy of the winner of some sample of t distinct positions |
| Populations.Population.Tournament | src/ga/population.py:46-48 | one round: a fresh copy of the winner of some sample of t distinct positions |
| Populations.Reach | src/ga/population.py:63-68 | the wheel stops at the first position whose running total reaches the pick, and at none when no running total does |
| Populations.Spin | src/ga/population.py:63-68 | the inner accumulation loop stops exactly where Reach says |
| Populations.SumMono | src/ga/population.py:63-66 | with no negative scores the running totals never fall |
| Populations.ReachIsSlot | src/ga/population.py:60-68 | with no negative scores, a positive pick stops at member i exactly when it falls in (total before i, total through i] |
| Populations.ReachFindsOne | src/ga/population.py:60-68 | with no negative scores and a non-zero total, every spin stops at some member |
| Populations.Population.SelectRoulette | src/ga/population.py:52-69 | IndexError exactly when spins are wanted from an empty population. A zero total gives k copies of members. Otherwise each copy is of a member some spin stops at, and there are exactly k of them when no score is negative |
| Populations.Population.RandomCopies | src/ga/population.py:57-58 | the zero-total fallback: k distinct fresh copies, each of some member |
| Populations.Population.Spins | src/ga/population.py:60-69 | at most k distinct fresh copies, each of a member a spin reaches; exactly k when no score is negative |
| Populations.Population.SpinOnce | src/ga/population.py:62-68 | one spin: a fresh copy of the member the wheel stops at, if it stops; with no negative score it always stops |
| PyBase.SliceLen | src/ga/population.py:78 | the length of the slice `[:n]`: min(n, len) for n ≥ 0, and len less min(-n, len) for a negative n |
| Populations.InsertByScore | src/ga/population.py:73-77 | one step of the stable sort adds exactly position i to the order |
| Populations.InsertKeepsOrder | src/ga/population.py:73-77 | inserting a later position keeps the order descending by score, with ties in population order |
| Populations.EliteOrder | src/ga/population.py:73-77 | the sorted order lists m positions, all below m |
| Populations.EliteOrderDescends | src/ga/population.py:73-77 | the order runs from high score to low, equal scores in population order |
| Populations.EliteOrderPermutes | src/ga/population.py:73-77 | the order holds each of the positions 0..m-1 exactly once |
| Populations.EliteOrderSorted | src/ga/population.py:73-77 | that order is a permutation of 0..m-1, descending by score, with equal scores in population order (a stable reverse sort) |
| Populations.Population.GetElite | src/ga/population.py:72-78 | as many distinct fresh copies as the slice `[:n]` keeps; the j-th copies the j-th member of the stable descending order |
| Populations.Population.Best | src/ga/ga_engine.py:124 | `max` by score: a member no other outscores, every earlier member scoring strictly less, so it is the first member of top score |
| CoverageUtils.Classify | coverage_utils.py:18-49 | no problem map or no entry: coverage 0, one failure. A crashed run: one failure whatever the oracle says. An oracle that raises with a successful run: no failure. Otherwise a failure exactly when output and expected differ. Coverage is the run's percentage |
| CoverageUtils.EvaluationReport | coverage_utils.py:51-65 | all four keys present; fitness = coverage + 50 × failures; detected_bug exactly when there is a failure |
| CoverageUtils.EvaluateIndividual | coverage_utils.py:14-65 | returns that report and writes fitness, coverage and detected_bug (not failures) on the individual, changing nothing else |
| CoverageUtils.CoverageEvaluation | coverage_utils.py:52-65 | evaluating with evaluate_individual ends in the same state whether or not its own writes happened first. Fitness is the coverage, or the coverage plus 50 exactly when a failure was seen, and the bug flag marks that failure |
| Operators.KeysFor | src/ga/operators.py:18-64 | each problem id's argument names, one or two of them, with `value` for any other id |
| Operators.KeysForDistinct | src/ga/operators.py:18-64 | those argument names are distinct |
| Operators.Zip | src/ga/operators.py:26-60 | the dict literal built has exactly the given keys and values, in order |
| Operators.InitRandomIndividual | src/ga/operators.py:18-64 | a fresh unscored individual whose genes have the problem's keys and hold an input its generator can produce; any other id gets `{"value": v}` with 0 ≤ v ≤ 100 |
| Operators.CrossedKeys | src/ga/operators.py:77-86 | with parents of equal key lists, crossover children have the first parent's keys in its order |
| Operators.CrossoverStructured | src/ga/operators.py:70-99 | children are fresh, distinct, carry their parents' scores and are either the parents' genes or a uniform, key-by-key complementary recombination in A's key order. KeyError only when a key of A is missing from B; TypeError only from two-point slicing with three or more genes; success whenever B covers A's keys and a parent has fewer than three genes |
| Operators.MutateInt | src/ga/operators.py:112-117 | a mutated integer is in [-100, 100] or within 20 of the old value |
| Operators.MutateStr | src/ga/operators.py:127-136 | the length changes by at most one, a non-empty string stays non-empty, and every character is kept or drawn from `a-z0-9` |
| Operators.MutateItem | src/ga/operators.py:145-154 | an integer item stays an integer, kept or mutated as above. A nested list keeps its length and changes at most one position, an integer moved by at most 10. Any other item is kept |
| Operators.MutateList | src/ga/operators.py:139-155 | the list is the original with an optional integer from [-50, 50] appended and an optional item popped (only while more than one is left), each item of that list then changed as MutateItem allows, position by position |
| Operators.NestedListKeepsLength | src/ga/operators.py:151-154 | a nested list never changes length: [[0, 0]] cannot become [[1000, -1000, 7]] |
| Operators.PopCanShiftKinds | src/ga/operators.py:141-150 | a pop shifts items, so the appended integer can take a string's place: ["a"] can become [99] |
| Operators.MutateTuple | src/ga/operators.py:158-166 | same arity; integers mutated as above, everything else kept |
| Operators.MutateValue | src/ga/operators.py:111-166 | a gene keeps its type and changes only as its type's branch allows |
| Operators.Mutate | src/ga/operators.py:104-168 | a fresh individual with the input's scores and its keys in the same order, every gene kept or mutated by its type's rule; the input is untouched |
| Engine.BugCount | src/ga/ga_engine.py:108 | the number of flagged members: at most the population, and 0 exactly when nobody is flagged |
| Engine.SumAtMost | src/ga/ga_engine.py:106 | a sum of scores each at most m is at most n × m |
| Engine.AverageAtMost | src/ga/ga_engine.py:106 | so the average score never exceeds the best |
| Engine.Summary | src/ga/ga_engine.py:104-118 | the history entry names the generation and the population. Best fitness and coverage are those of the first member of top score. The averages are the sums of scores and of coverages over the population size, a missing fitness counting as 0, and the average fitness is at most the best. The bug count is the number of flagged members |
| Engine.InitialPopulation | src/ga/ga_engine.py:36 | exactly max(population_size, 0) distinct fresh individuals, each a valid initial genome for the problem with the constructor's fields: fitness None, coverage 0, no failures, no bug |
| Engine.Partner | src/ga/ga_engine.py:62-64 | parent i is paired with parent i + 1, or with parent 0 when it is last |
| Engine.BreedPair | src/ga/ga_engine.py:66-72 | two fresh, distinct children with the parents' keys. Each is its parent's fields with genes that are a crossover outcome (or the parent's own), then mutated once |
| Engine.ExtendPairs | src/ga/ga_engine.py:62-75 | appending one bred pair keeps every earlier pair in place |
| Engine.Breed | src/ga/ga_engine.py:61-75 | 2·⌈parents/2⌉ distinct fresh children with the problem's keys; children i and i + 1 are the offspring of parent i and its partner, for every even i |
| Engine.BreedNext | src/ga/ga_engine.py:63-75 | one round of the breeding loop: the children so far, then a fresh pair bred from the next parent and its partner; the list stays distinct and keyed |
| Engine.AppendPair | src/ga/ga_engine.py:75 | extending the children by two new, different ones with the problem's keys keeps them distinct and keyed, and appends the pair's fields |
| Engine.Join | src/ga/ga_engine.py:89 | elites followed by children, objects disjoint, are distinct and keep the keys |
| Engine.Assess | src/ga/ga_engine.py:90-118 | the new population holds the given individuals. Genes and keys are unchanged; each member's new state is the evaluator's outcome on its old state; the statistics are the summary of the scored members, which they record and describe |
| Engine.Scored | src/ga/ga_engine.py:90-98 | the new population holds the given list, and each member is scored by the evaluator as Evaluated says; genes and keys are kept |
| Engine.SummaryRecords | src/ga/ga_engine.py:105-118 | the statistics carry the generation number and the population; the best fitness is a member's, no member outscores it, and the average does not exceed it |
| Engine.ChronicleSnoc | src/ga/ga_engine.py:110-118 | appending the record of the next generation keeps the history numbered in order |
| Engine.GAEngine.constructor | src/ga/ga_engine.py:15-32 | the engine keeps its parameters |
| Engine.GAEngine.Reproduce | src/ga/ga_engine.py:41-89 | ValueError exactly when the tournament cannot be held. Otherwise exactly max(population_size, 0) distinct fresh individuals with the problem's keys, starting with copies of the elites in get_elite order. The elites are taken from the population as the coverage evaluator scored it, and the population is left in that scored state |
| Engine.GAEngine.Elites | src/ga/ga_engine.py:41-45 | each member is rescored by the coverage evaluator (evaluate_individual), and the population is left in that state. The elites are copies of its members in get_elite order: as many as the slice keeps, distinct, fresh, with the problem's keys |
| Engine.LeadingPrefix | src/ga/ga_engine.py:89 | elites at the head of a list stay at the head of any list that starts with them |
| Engine.GAEngine.Replenish | src/ga/ga_engine.py:50-89 | the elites come first, unchanged, followed by fresh children; the new list has the population size |
| Engine.GAEngine.Generation | src/ga/ga_engine.py:41-118 | ValueError exactly when the tournament cannot be held or the population is empty. The old population is scored by the coverage evaluator. Otherwise the next population has exactly population_size distinct fresh members with the problem's keys; it opens with the elites of the scored population, every member is then scored by the engine's evaluator, and the history entry is the summary of the result, which it records and describes |
| Engine.GAEngine.Run | src/ga/ga_engine.py:34-125 | ValueError exactly for an empty population or an impossible tournament. Otherwise one history entry per generation, numbered in order, and a fresh best individual with the problem's keys. With no generation it is a member of the seeded population, untouched: a valid initial genome, fitness None, coverage 0, no failures, no bug. Otherwise it is the first member of top score of the last entry's population, whose summary that entry is |
| Engine.GAEngine.Seed | src/ga/ga_engine.py:36-37 | a new population of max(population_size, 0) distinct fresh individuals with the problem's keys, each a valid initial genome with the constructor's unscored fields |
| Engine.GAEngine.Grow | src/ga/ga_engine.py:36-118 | the seeded population evolved: ValueError exactly when a generation runs and the population is empty or the tournament cannot be held. Otherwise one entry per generation, numbered in order, and a fresh last population of the same size and keys, whose summary the last entry is, or which is still the seeded one when no generation runs |
| Engine.GAEngine.Advance | src/ga/ga_engine.py:40-118 | one pass of the generation loop: ValueError exactly when the tournament cannot be held or the population is empty; otherwise the history grows by one entry, numbered in order, which is the summary of the fresh next population |
| Engine.ClosingDescribes | src/ga/ga_engine.py:105-118 | a history that closes on a population's summary describes that population in its last entry |
| Engine.CrownedBest | src/ga/ga_engine.py:105-124 | the first member of top score belongs to the last population, no member outscores it, and its score is the best fitness the last entry records |
| Engine.GAEngine.Evolve | src/ga/ga_engine.py:40-118 | ValueError exactly when a generation runs and the population is empty or the tournament cannot be held. Otherwise one entry per generation, numbered in order; the last population keeps the size and keys, is fresh, and the last entry is its summary. With no generation the population is returned as it was seeded |
| Engine.GAEngine.Finish | src/ga/ga_engine.py:124-125 | `max` raises ValueError exactly on an empty population. Otherwise the best individual is the first member of top score of the last population, with the problem's keys; after at least one generation the last entry is that population's summary, and with none the best is an untouched initial individual |
| RandomGenerator.RandomLetters | random_generator.py:18-19 | k lowercase letters |
| RandomGenerator.RandomInts | random_generator.py:46 | k integers within the given bounds |
| RandomGenerator.RandomInputTestBranch | random_generator.py:11-13 | an integer in [1, 100] |
| RandomGenerator.RandomInputEditDistance | random_generator.py:16-27 | two lowercase words of the drawn lengths n1 and n2, each at most five; when the substitution link is taken, both are non-empty and some letter of the second equals some letter of the first |
| RandomGenerator.RandomInputMaximalRectangle | random_generator.py:30-41 | at most five rows, each empty or exactly `cols` cells of "0"/"1", one `cols` ≤ 5 for all rows |
| RandomGenerator.RaggedMatrices | random_generator.py:30-41 | such a matrix makes maximal_rectangle raise IndexError exactly when its first row is non-empty and some row is empty |
| RandomGenerator.RandomInputReversePairs | random_generator.py:44-60 | a drawn length n ≤ 12 and n or n + 1 integers, all in [-20, 20], the extra one only when n > 0; when the zero reset is chosen, exactly n zeros |
| RandomGenerator.MaybeSort | random_generator.py:51-55 | the optional sorts keep the length and the bounds |
| RandomGenerator.SortedDraw | random_generator.py:65-66 | k sorted integers in [-25, 24] |
| RandomGenerator.AppendCopy | random_generator.py:74-78 | the list is unchanged or gains a copy of one of its own items at the end, so a sorted list stays sorted or sorted plus a repeated item, within the same bounds |
| RandomGenerator.RepeatCanUnsort | random_generator.py:74-78 | that copy can leave the list unsorted: [1, 2] may become [1, 2, 1] |
| RandomGenerator.RandomInputMedianTwoArrays | random_generator.py:63-85 | two lists of at most 7 values in [-25, 24], each sorted or sorted plus a repeated item |
| RandomGenerator.DuplicateKeepsSorted | random_generator.py:100-103 | inserting a copy of `arr[pos]` at pos keeps a sorted list sorted |
| RandomGenerator.SortedBase | random_generator.py:94-108 | 1 to 23 sorted values in [-50, 50] |
| RandomGenerator.RotationUndoes | random_generator.py:117 | `arr[pivot:] + arr[:pivot]` of a sorted list is a rotation of a sorted list |
| RandomGenerator.Rotate | random_generator.py:110-117 | the rotated list is a permutation of the sorted base and a rotation of a sorted list; the pivot is an index of it (or 0 for one item) |
| RandomGenerator.PickTarget | random_generator.py:119-132 | the target is an item of the list, or a value in [-100, 100] the list does not hold |
| RandomGenerator.RandomInputSearchRotated | random_generator.py:88-134 | an empty list with a target in [-50, 50], or a rotated sorted list of at most 23 values in [-50, 50] with a hit or miss target |
| RandomGenerator.PutDigit | random_generator.py:142-146 | replacing one digit keeps the length and an all-digit string, with the new digit in place |
| RandomGenerator.RandomInputDecodeWays | random_generator.py:137-151 | at most 13 characters, all digits |
| RandomGenerator.RandomInput | random_generator.py:157-173 | one input tuple of the named known problem's generator |
| RandomGenerator.GenerateRandomInputs | random_generator.py:157-177 | for a known name, exactly max(n, 0) tuples, each one the problem's generator can produce. For an unknown name, ValueError exactly when n > 0, and an empty list otherwise |
| ReversePairs.PairCountSplit | src/problems/reverse_pairs.py:9-19 | the pairs of `left + right` are those inside each half plus those across |
| ReversePairs.CrossCountPermutation | src/problems/reverse_pairs.py:10-19 | the across count does not depend on the order of either half, so counting after sorting the halves is sound |
| ReversePairs.PairCountBound | src/problems/reverse_pairs.py:4-36 | the count is at most n(n-1)/2 |
| ReversePairs.PairCountPositive | src/problems/reverse_pairs.py:4-36 | the count is positive exactly when some pair i < j satisfies the test |
| ReversePairs.BuggyCountsEqualPairsToo | src/problems/reverse_pairs.py:54 | the defective count equals the correct count plus the pairs with `nums[i] == 2*nums[j]` |
| ReversePairs.BuggyDiffersExactlyOnDoubledPairs | src/problems/reverse_pairs.py:54 | so the defective version never counts fewer, and counts more exactly when some pair has `nums[i] == 2*nums[j]` |
| ReversePairs.BuggyCountsZeroPair | src/problems/reverse_pairs.py:54 | on `[0, 0]` the correct count is 0 and the defective one is 1 |
| ReversePairs.CountCrossPairs | src/problems/reverse_pairs.py:15-19 | the two-index loop over sorted halves adds up exactly the across pairs |
| ReversePairs.Merge | src/problems/reverse_pairs.py:22-32 | the merge of two sorted halves is sorted and a permutation of their union |
| ReversePairs.MergeSort | src/problems/reverse_pairs.py:6-33 | `merge_sort` returns a sorted permutation of its argument and the number of its index pairs passing the test |
| ReversePairs.ReversePairsCorrect | src/problems/reverse_pairs.py:4-36 | the result is the number of pairs i < j with `nums[i] > 2*nums[j]`, at most n(n-1)/2 |
| ReversePairs.ReversePairsBuggy | src/problems/reverse_pairs.py:41-73 | the result is the number of pairs i < j with `nums[i] >= 2*nums[j]`, at most n(n-1)/2 |
| MedianOfTwoSortedArrays.SortedKth | src/problems/median_of_two_sorted_arrays.py:13-31 | in a sorted list, the item at k is the k-th smallest |
| MedianOfTwoSortedArrays.KthUnique | src/problems/median_of_two_sorted_arrays.py:13-31 | the k-th smallest element is unique |
| MedianOfTwoSortedArrays.MedianUnique | src/problems/median_of_two_sorted_arrays.py:13-31 | the median of a list is unique |
| MedianOfTwoSortedArrays.MedianSwap | src/problems/median_of_two_sorted_arrays.py:7-8 | swapping the arrays does not change the median of their union |
| MedianOfTwoSortedArrays.ResultIsMedianOfInputs | src/problems/median_of_two_sorted_arrays.py:7-8 | a median of the swapped arrays is a median of the caller's arrays |
| MedianOfTwoSortedArrays.CutValueIsMedian | src/problems/median_of_two_sorted_arrays.py:21-31 | at a balanced cut of two sorted arrays, the max of the left (odd total) or the mean of it and the min of the right (even total) is the median |
| MedianOfTwoSortedArrays.EvenCutIsMedian | src/problems/median_of_two_sorted_arrays.py:21-31 | for an even total, the mean of max_of_left and min_of_right at a balanced cut is the median |
| MedianOfTwoSortedArrays.TooSmallBelow | src/problems/median_of_two_sorted_arrays.py:16-17 | a cut that is too far left makes every smaller cut too far left |
| MedianOfTwoSortedArrays.TooBigAbove | src/problems/median_of_two_sorted_arrays.py:18-19 | a cut that is too far right makes every larger cut too far right |
| MedianOfTwoSortedArrays.NoFlipBetweenCuts | src/problems/median_of_two_sorted_arrays.py:16-19 | adjacent cuts are never too small then too big |
| MedianOfTwoSortedArrays.ExhaustedMeansUnsorted | src/problems/median_of_two_sorted_arrays.py:13-31 | the binary search falls through only when an input is unsorted |
| MedianOfTwoSortedArrays.MedianCorrect | src/problems/median_of_two_sorted_arrays.py:4-31 | ValueError exactly when both arrays are empty; for sorted inputs, the exact median of their union, as a real |
| MedianOfTwoSortedArrays.OddMedian | src/problems/median_of_two_sorted_arrays.py:25-26 | for an odd total, the middle element is the median |
| MedianOfTwoSortedArrays.EvenMedian | src/problems/median_of_two_sorted_arrays.py:28-31 | for an even total, the mean of the two middle elements is the median |
| MedianOfTwoSortedArrays.BuggyCutValue | src/problems/median_of_two_sorted_arrays.py:52-62 | the defective end computation, with Python indexing of B, can only raise IndexError |
| MedianOfTwoSortedArrays.BuggyCutAgrees | src/problems/median_of_two_sorted_arrays.py:45-62 | when nums1 is no longer than a non-empty nums2, its reads stay in range and agree with the correct computation |
| MedianOfTwoSortedArrays.CutExistsFrom | src/problems/median_of_two_sorted_arrays.py:45-54 | on sorted arrays the linear scan meets a balanced cut |
| MedianOfTwoSortedArrays.ScanExhaustedMeansUnsorted | src/problems/median_of_two_sorted_arrays.py:45-62 | the scan falls through only for unsorted input |
| MedianOfTwoSortedArrays.MedianBuggy | src/problems/median_of_two_sorted_arrays.py:37-62 | an empty nums2 gives `nums1[len//2]`, or IndexError when nums1 is empty too. Only IndexError is ever raised, and always when nums1 is longer than a non-empty nums2 (round 0 reads B past its end). When nums1 is no longer than a non-empty nums2 it succeeds, and on sorted inputs it gives the median |
| MedianOfTwoSortedArrays.BuggyEmptySecondMissesEvenMedian | src/problems/median_of_two_sorted_arrays.py:40-41 | `[1, 2]` and `[]` have median 1.5, and the defective version returns 2 |
| MaximalRectangle.ScanCorrect | src/problems/maximal_rectangle.py:16-22 | the stack scan with the 0 sentinel finds the area of a rectangle under the histogram, and bounds every such rectangle's area |
| MaximalRectangle.SentinelCoversAll | src/problems/maximal_rectangle.py:14-22 | with the final 0 height, once all bars are popped, no rectangle under the histogram beats the best area |
| MaximalRectangle.PopTallerBuggy | src/problems/maximal_rectangle.py:43-46 | each pop of the defective loop records a rectangle under the histogram that the current, lower bar stops, and every rectangle an earlier bar stops stays counted; once done, the stack top is no taller than the current bar; on a non-decreasing histogram it finds nothing new |
| MaximalRectangle.ScanBuggy | src/problems/maximal_rectangle.py:41-48 | the scan without sentinel gives the larger of the old maximum and the largest rectangle under the histogram whose right neighbour bar is lower; on a non-decreasing histogram it finds nothing new |
| MaximalRectangle.Run | src/problems/maximal_rectangle.py:12-14 | the run of "1"s ending at row k is at most k long |
| MaximalRectangle.RunReaches | src/problems/maximal_rectangle.py:12-14 | the run is at least v exactly when the v cells above row k in that column are all "1" |
| MaximalRectangle.UpdateHeights | src/problems/maximal_rectangle.py:12-14 | the height update raises IndexError exactly for a row shorter than the first. Otherwise each height grows by one on "1", resets to 0 otherwise, and the sentinel is kept |
| MaximalRectangle.NextRuns | src/problems/maximal_rectangle.py:12-14 | after each row, every height is the run of "1"s ending there in its column |
| MaximalRectangle.RowStepFound | src/problems/maximal_rectangle.py:16-22 | an area found from a row's histogram is the area of an all-ones rectangle of the matrix |
| MaximalRectangle.RowStepBound | src/problems/maximal_rectangle.py:16-22 | a bound on every rectangle under the row's histogram bounds every all-ones rectangle ending at that row |
| MaximalRectangle.MaximalRectangleCorrect | src/problems/maximal_rectangle.py:4-24 | 0 for an empty matrix; IndexError exactly when a row is shorter than the first; otherwise the largest area of an all-"1" rectangle |
| MaximalRectangle.MaximalRectangleBuggy | src/problems/maximal_rectangle.py:29-50 | 0 for an empty matrix, IndexError exactly when a row is shorter than the first. Otherwise the largest area of an all-"1" rectangle whose right neighbour column is not all "1" over its rows, or 0 when there is none; so 0 for an all-"1" matrix |
| MaximalRectangle.RowStepStoppedFound | src/problems/maximal_rectangle.py:37-48 | an area the defective scan finds in a row's histogram is that of an all-"1" rectangle ending at that row whose right neighbour column is not all "1" over its rows |
| MaximalRectangle.RowStepStoppedBound | src/problems/maximal_rectangle.py:37-48 | once the defective scan counts every rectangle under the row's histogram stopped by a lower bar, it bounds every all-"1" rectangle ending at that row with a column to its right that is not all "1" over its rows |
| MaximalRectangle.AllOnesRunsLevel | src/problems/maximal_rectangle.py:41-48 | for an all-"1" matrix every histogram is level, so the defective scan never pops |
| MaximalRectangle.AreaBounded | src/problems/maximal_rectangle.py:4-50 | an all-ones area lies in [0, rows × cols] |
| MaximalRectangle.AllOnesLargest | src/problems/maximal_rectangle.py:4-24 | the largest rectangle of an all-"1" matrix is the whole matrix, where the defective version answers 0 |
| SearchRotated.RotationIsRotated | src/problems/search_rotated.py:3-26 | rotating a strictly increasing list gives a list of the shape the search is written for |
| SearchRotated.LeftRunHolds | src/problems/search_rotated.py:13-15 | with the left half sorted and the target in its range, nothing right of mid holds it |
| SearchRotated.LeftRunMisses | src/problems/search_rotated.py:13-17 | with the left half sorted and the target outside its range, nothing in the left half holds it |
| SearchRotated.RightRunHolds | src/problems/search_rotated.py:20-22 | with the right half sorted and the target in its range, nothing left of mid holds it |
| SearchRotated.RightRunMisses | src/problems/search_rotated.py:20-24 | with the right half sorted and the target outside its range, nothing in the right half holds it |
| SearchRotated.SearchRotatedCorrect | src/problems/search_rotated.py:3-26 | -1 or an index holding the target; never -1 for a present target in a rotated strictly increasing list |
| SearchRotated.BuggyProbeSound | src/problems/search_rotated.py:34-54 | the defective search only reports an index holding the target |
| SearchRotated.BuggyMissesInRotation | src/problems/search_rotated.py:41-52 | in `[3, 1]` (a rotation of `[1, 3]`) the defective search misses the 1 |
| SearchRotated.SearchRotatedBuggy | src/problems/search_rotated.py:31-54 | the loop returns what the defective probe sequence gives: -1 or an index holding the target |
| DecodeWays.IntOfChar | src/problems/decode_ways.py:11 | `int(c)` succeeds exactly on a decimal digit, with its value |
| DecodeWays.IntOfPair | src/problems/decode_ways.py:12 | `int()` of two characters gives the two-digit value on digits, fails on two non-digits, and otherwise lies in [-9, 99] |
| DecodeWays.DecodingsByLastToken | src/problems/decode_ways.py:10-18 | splitting off the last token counts the same splittings as splitting off the first |
| DecodeWays.SwapFirstAndLastToken | src/problems/decode_ways.py:10-18 | the inductive step of that equality |
| DecodeWays.TableCountsPrefixSplits | src/problems/decode_ways.py:6-18 | for digit strings with a valid first token, dp[i] is the number of splittings of the first i characters into tokens |
| DecodeWays.PrefixStep | src/problems/decode_ways.py:10-18 | the induction step: when dp[i - 1] and dp[i - 2] count the splittings of their prefixes, dp[i] counts those of the first i characters |
| DecodeWays.TableStep | src/problems/decode_ways.py:10-18 | on digit strings both `int()` calls of round i succeed, and dp[i] adds dp[i - 1] for a one-character code and dp[i - 2] for a two-character one |
| DecodeWays.PrefixByLastToken | src/problems/decode_ways.py:10-18 | the splittings of the first i characters, counted by their last token |
| DecodeWays.LenientCountsMore | src/problems/decode_ways.py:37-42 | the lenient token tests never count fewer splittings |
| DecodeWays.FillTable | src/problems/decode_ways.py:6-20 | the dp loop raises ValueError exactly when an `int()` call fails, and otherwise returns dp[n] |
| DecodeWays.DecodeWaysCorrect | src/problems/decode_ways.py:2-20 | 0 for an empty string or a leading '0'. Otherwise ValueError exactly when an `int()` call fails. On digit strings it gives the number of splittings into "1".."9" and "10".."26" |
| DecodeWays.DecodeWaysBuggy | src/problems/decode_ways.py:24-44 | 0 for an empty string; otherwise ValueError exactly when an `int()` call fails. On digit strings it gives the number of splittings into "0".."9" and "01".."30" |
| DecodeWays.BuggyNeverBelowCorrect | src/problems/decode_ways.py:24-44 | on digit strings the defective version never returns less than the correct one |
| DecodeWays.BuggyDecodesLoneZero | src/problems/decode_ways.py:30 | `"0"` has no decoding, and the defective version counts one |

## Left out

- `run_with_coverage` (coverage measurement, module import, timing) is a parameter of each problem entry (`Target.run`), returning the output, the success flag and the percentage.
- The problem map is modelled only as present or absent, with or without an entry for the problem id. An entry always has an oracle and a runner. The `except Exception` in `evaluate_individual` is modelled only for those two missing-entry cases.
- `Individual.serialize` and `Individual.pretty` are JSON and string formatting; genes are plain values here, so neither has anything to model.
- `Individual.as_kwargs` returns the genes dict itself. The model reads `genes` directly, and because genes are immutable values, the aliasing it creates has no observable effect.
- Floats are not modelled. The float branch of `mutate` and float genes are left out, because no generator produces them. Scores are exact `real`s, so rounding in sums and averages is not captured.
- The probabilities of the random choices (`mutation_prob`, `uniform_prob`, `radical_prob` and the literal rates) are not modelled: every branch is possible. `crossover_prob` appears only as the bound of one draw.
- `Engine.GAEngine.Run`: the mutation probability is passed nowhere in the model, since it only weights the choices.
- The novelty `archive` set is only passed along and never read, so it is not modelled.
- All `print` and verbose debugging output is left out.
- `Population.evaluate` skips entries that are not Individuals. The model's list holds only Individuals, so that branch is not modelled.
- `Populations.Population.Evaluate` requires the members to be distinct objects. A list holding one object twice would have it scored twice, and that case is not modelled.
- Evaluators are pure functions from an individual's fields to a report or a raise. An evaluator that changes the genes it is given is not modelled.
- The source redraws the search-rotated miss target until it is absent. The model picks an absent value directly, because the list has at most 23 items, so such a value always exists.
- `int()` is modelled on ASCII: Unicode digits and Unicode whitespace accepted by Python's `int()` are not.
- The two-point crossover body slices a dict, so it always raises: TypeError before Python 3.12, where slices are unhashable, and KeyError from Python 3.12 on. The model returns TypeError, the older behaviour. It is unreachable from the engine.
- Uniform crossover stores the parents' own gene values in the children (`A[key]`, `B[key]`), so in the source a child shares nested lists with its parent. Genes are values in the model, so this sharing is not captured. It has no effect in the engine, because `mutate` starts from a deep copy.
- `mutate` shifts a nested-list integer in place at line 154, on a list shared with `new.genes`. That list is already a deep copy of the input's genes, so the input is untouched, and the model treats it as a value.
- `Engine.GAEngine.Generation`: it states the scored states of the old population but not that the old population's objects are left holding them; `Engine.GAEngine.Reproduce` states that.
- `Engine.GAEngine.Evolve`: which evaluator scored each generation is stated for one generation by `Engine.GAEngine.Generation`; across the loop only the last entry's summary of the last population is carried.
- `Engine.GAEngine.Run`: the best member's facts (membership, no one outscoring it, score equal to the last entry's best fitness) are stated through `Crowned`, from which `Engine.CrownedBest` derives them.
- `Engine.GAEngine.Reproduce`: it does not restate which tournament winners the non-elite places descend from; `Populations.Population.SelectTournament` and `Engine.Breed` state those relations.
- `Engine.GAEngine.Run`: the history's `population` entries are the individuals themselves, as in the source, and the next generation's first evaluation rescores them. Only the value facts recorded when each entry was made are stated for entries other than the last.
- `experiment.py` and `config.py` (the experiment runner and static schemas) are not part of this model.
