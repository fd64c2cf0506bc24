# A verified model of the parseltongue Wordle solver

This project models, in Dafny, the core of a Wordle-style solver written in
Python. It covers the chain that leads from a feedback mask to a chosen
guess:

- **Masks** (`model/masks.py`). `Mask.for_answer` is the two-pass scorer
  that handles repeated letters (2 = correct, 1 = present elsewhere,
  0 = absent). `__hash__` encodes a mask as a little-endian base-3 number
  and `numbered` decodes it. `MaskInstance.matches` checks whether a word
  is consistent with one observed (guess, mask) pair. Masks are `seq<int>`,
  so `Mask.__eq__` is sequence equality.
- **Engine** (`model/engine.py`). `compute_grouping` groups the answers by
  the mask they draw. `_prune_answers` and `pruned` narrow the answers and,
  in hard mode, the allowed words. `Engine.pruned` returns a copy and
  `MutableEngine.pruned` updates the engine in place; both are methods of
  the one `Engine` class here. `game_id` is the order-independent identity
  of a game.
- **Guess statistics**. These cover `model/guess.py` (a guess over a list
  of answers) and `ai/guess.py` (a guess over a ready-made grouping). They
  include split counts and sizes, largest, mean and median split,
  eligibility, the solving percentages, `equiv`, and the `coalesce`
  generator. `model/multi_guess.py` aggregates one guess over several
  boards.
- **Ranking keys** (`ai/sorting.py`, and the duplicate `Sorters` in
  `ai/guess.py`). Both are modelled once, over a `Stats` record that each
  guess kind provides.
- **Strategies** (`strategies.py`): `Strategy`, `Greedy` and `Heuristic`
  choosing a word from a solution space.
- **Computer player** (`gameplay/computer.py`): the memoised solution
  space, filled from an abstract disk cache or computed, and cleared by
  `bust` and `update`.
- **Cache codec** (`gameplay/data.py`: `jsonify` and `unjsonify`).
- **Evaluators** (`evaluators.py`): scoring a guess against known answers,
  removing a found answer, and the visitor list.

A Python dict's iteration order is observable here, because `equiv` and
`gen_best` compare `list(d.values())`. So a dict is modelled as
`Dict(keys, entries)`: the keys in first-insertion order plus a map
(module `Dicts`). A Python set that the code later iterates (the pruned
answers, `engine.words`) is listed in an unspecified order by
`Engines.Enumerate`. Python exceptions that the code lets escape become
`Result` errors: `KeyError`, `ValueError`, `IndexError`, `TypeError`,
`AttributeError` and `StopIteration`. Crashes the code never guards
against are `requires` instead:

- an answer longer than the guess, which makes `for_answer` raise
  `IndexError`;
- a statistic taken over no answers. `largest_split` raises `ValueError`
  from `max` of nothing (model/guess.py:26, ai/guess.py:25).
  `median_split_size` raises `IndexError` at `split_sizes[-1]`
  (model/guess.py:55-58, ai/guess.py:43-46). `mean_split_size` and
  `next_solving_percentage` raise `ZeroDivisionError`, because there are no
  splits to divide by;
- a subject or mask shorter than the cause in `matches` (see
  `Masks.Matches` under "## Left out").

The hard-mode filter keeps a word that **any** instance accepts. That is
the same union rule `_prune_answers` applies to the answers, and the
program passes one instance per board. With no instances, `any` of
nothing empties the word list (`Engines.HardWordsNoInstances`).

The source departs from what it evidently intends in a few places. The
model records each one and proves the behaviour as written:

- `matches` agrees with recomputing `for_answer` only for masks that
  `for_answer` can produce. For the guess "aax" and the mask [0,1,0], it
  accepts "bca", whose own mask is [1,0,0].
- An impossible mask makes pruning raise `KeyError`; it does not yield an
  empty answer set.
- The `equiv` of `model/guess.py` raises `AttributeError` for two
  non-eligible guesses.
- `coalesce(count=None)` raises `TypeError`.
- The cache round trip is exact only for masks of five marks.

## Model

| member | source | states |
|---|---|---|
| `Masks.Feedback` | model/masks.py:34-46 | The mask has one mark per answer letter, each in 0..2, and a mark is 2 exactly where guess and answer agree. |
| `Masks.ForAnswer` | model/masks.py:34-46 | The two loops (exact matches, then leftover letters handed out left to right) compute exactly `Feedback`. |
| `Masks.LetterCredit` | model/masks.py:37-45 | For every letter, the guess positions marked 1 or 2 number the smaller of its count in the answer and in the guess, so repeated guess letters are never over-credited. |
| `Masks.GoldenFeedback` | model/masks.py:34-46 | `for_answer("ababa", "aabbb")` is [2,1,1,2,0]. |
| `Masks.SolvedIff` | model/masks.py:29-46 | The mask is all 2s exactly when the guess spells the answer. |
| `Masks.HashOf` | model/masks.py:10-15 | The Horner loop over the reversed marks computes the base-3 value `Value(m)`. |
| `Masks.ValueIsPositional` | model/masks.py:10-15 | The hash is Σ m[i]·3^i: the first mark is the least significant digit. |
| `Masks.ValueRange` | model/masks.py:10-15 | For marks in 0..2, the hash lies in [0, 3^len). |
| `Masks.ValueInjective` | model/masks.py:10-21 | Two valid masks of one length with equal hashes are equal, so distinct masks hash apart. |
| `Masks.Digits` | model/masks.py:48-56 | `numbered(n, l)` has `l` marks (none when `l <= 0`), each in 0..2. |
| `Masks.Numbered` | model/masks.py:48-56 | The digit loop (`% 3`, `// 3`, `l` times) computes `Digits(n, l)`. |
| `Masks.DigitsOfValue` | model/masks.py:48-56 | `numbered(hash(m), len(m)) == m` for every mask with marks in 0..2. |
| `Masks.InstanceFor` | model/masks.py:104-106 | The instance is caused by the guess, has the answer's length, and is solved exactly when the guess spells the answer. |
| `Masks.FirstPass` | model/masks.py:65-82 | The first loop of `matches` succeeds exactly when every correct or present mark can claim an unclaimed copy of its letter; what is left is the subject minus the credited letters. |
| `Masks.SecondPass` | model/masks.py:83-87 | The second loop succeeds exactly when no absent mark sits on an agreeing letter or on a letter with an unclaimed copy. |
| `Masks.Matches` | model/masks.py:64-87 | `matches` returns exactly the verdict `MatchRule`. |
| `Masks.MatchRuleAll` | model/masks.py:64-87 | The verdict holds exactly when every position passes both passes' checks. |
| `Masks.MatchesOwnFeedback` | model/masks.py:64-87 | Soundness: a word always matches the instance its own mask for that guess makes. |
| `Masks.MatchesExact` | model/masks.py:64-87 | On masks `for_answer` produces, a word matches exactly when it draws the same mask itself. |
| `Masks.MatchesUnproducibleMask` | model/masks.py:64-87 | Counterexample: instance ([0,1,0], "aax") accepts "bca", although "bca" draws [1,0,0]. |
| `Masks.UnproducibleMask` | model/masks.py:34-46 | No three-letter answer draws [0,1,0] for the guess "aax". |
| `Collections.RemoveFirst` | evaluators.py:36-37 | `list.remove` takes out exactly the first copy: one element fewer, one copy of it fewer, everything else in order. |
| `Collections.SortByStable` | strategies.py:34 | `sorted(..., key=..., reverse=True)` is stable. The elements whose keys tie with any given element come out in the same order as they went in, so the greedy and heuristic rankings break ties by the order of the solution space. |
| `Dicts.SetDefaultAppend` | model/engine.py:26-27 | `setdefault(k, [])` followed by `append(x)` is one `AppendAt`. |
| `Dicts.GroupBySnoc` | model/engine.py:24-27 | Filing one more item under its key is one `setdefault`/`append` on the grouping built so far. |
| `Dicts.GroupBySizes` | model/engine.py:22-28 | The bucket sizes of a grouping add up to the number of items grouped. |
| `Dicts.GroupByMembers` | model/engine.py:22-28 | A grouping holds exactly the items it was built from. |
| `Engines.GroupAnswers` | model/engine.py:22-28 | The loop of `compute_grouping` builds exactly `Grouped(answers, word)`. |
| `Engines.Engine.ComputeGrouping` | model/engine.py:22-28 | `compute_grouping` over the engine's answers. |
| `Engines.GroupedIsGroupBy` | model/engine.py:22-28 | The grouping is the answers grouped by their masks: keys in first-seen order, each bucket in answer order. |
| `Engines.AnswersFiled` | model/engine.py:22-28 | Every answer sits in the bucket of its own mask. |
| `Engines.BucketOnlyOwnMask` | model/engine.py:22-28 | A bucket holds only answers that draw its mask. |
| `Engines.GroupingKeys` | model/engine.py:22-28 | The keys are exactly the masks some answer draws. |
| `Engines.GroupingShape` | model/engine.py:22-28 | No bucket is empty, each bucket keeps answer order, and the sizes sum to the number of answers. |
| `Engines.AnswerInOwnBucket` | model/engine.py:22-28 | The i-th answer is in the bucket of its own mask. |
| `Engines.LookUp` | model/engine.py:44 | `compute_grouping(mi.cause)[mi.mask]` fails exactly when no answer draws the mask; otherwise it is the instance's bucket. |
| `Engines.PruneAnswersOf` | model/engine.py:40-50 | The loop of `_prune_answers` returns exactly `Prune`: the `KeyError` or the kept answers less the solved ones. |
| `Engines.Engine.PruneAnswers` | model/engine.py:40-50 | `_prune_answers` on the engine's answers is `Prune`. |
| `Engines.PruneMembers` | model/engine.py:40-50 | A word survives exactly when it is an answer, some unsolved instance allows it, and it is not the guess of an instance whose bucket is that guess alone, even if another bucket holds it. |
| `Engines.PruneKeyError` | model/engine.py:44 | Pruning fails only with `KeyError`, and exactly when some instance's mask is drawn by no answer. |
| `Engines.PruneSubset` | model/engine.py:40-50 | The pruned answers are among the current answers. |
| `Engines.HardWordsMembers` | model/engine.py:34-35 | The hard-mode filter keeps exactly the words that at least one instance (`any`, not all) matches. |
| `Engines.HardWordsAppend` | model/engine.py:35 | The filter keeps word order: filtering a concatenation filters each part. |
| `Engines.HardWordsNoInstances` | model/engine.py:35 | With no instances, `any` is false, so hard-mode pruning empties the word list. |
| `Engines.AnyMatches` | model/engine.py:35 | The short-circuit `any(mi.matches(w) ...)` returns `AnyMatch`. |
| `Engines.FilterWords` | model/engine.py:35 | The list comprehension returns `HardWords(words, mis)`. |
| `Engines.Enumerate` | model/engine.py:32-33 | The pruned answer set is stored as a duplicate-free list of exactly its members. |
| `Engines.GameIdOrderFree` | model/engine.py:52-56 | The game identity depends only on the multisets of words and answers, not on their order. |
| `Engines.Engine.constructor` | model/engine.py:10-13 | The engine holds the given answers, words and hard-mode flag. |
| `Engines.Engine.IsAnswer` | model/engine.py:19-20 | `is_answer` is membership in the answers. |
| `Engines.Engine.AcceptableGuess` | model/engine.py:66-67 | `acceptable_guess` is membership in the words. |
| `Engines.Engine.Pruned` | model/engine.py:30-38 | It fails with `KeyError` exactly when `Prune` does. Otherwise it returns a fresh engine holding the pruned answers and the hard-mode filtered (or unchanged) words, and this engine is untouched. |
| `Engines.Engine.PrunedInPlace` | model/engine.py:71-75 | It gives the same answers and words as `Pruned`, stored in this engine, which is returned; on `KeyError` nothing changes. |
| `Guesses.AnswerGroupings` | model/guess.py:28-36 | `_answer_groupings` is the grouping of the answers by mask: every answer is in its own mask's bucket, and the sizes sum to the answer count. |
| `Guesses.NSplits` | model/guess.py:49-51 | `n_splits` is the number of distinct masks the answers draw: at most the answer count, and zero only without answers. |
| `Guesses.OneSplit` | model/guess.py:49-51 | There is one split exactly when there are answers and they all draw the same mask. |
| `Guesses.SplitSizes` | model/guess.py:61-66 | `split_sizes` is ascending, has one positive size per split summing to the answer count, and is a permutation of the bucket sizes. |
| `Guesses.LargestSplit` | model/guess.py:24-26 | `largest_split` bounds every bucket and is the last split size. |
| `Guesses.LargestIsLastSize` | model/guess.py:24-26 | The split sizes are non-empty and end with the largest split. |
| `Guesses.IsTheSolution` | model/guess.py:14-18 | `is_the_solution` holds exactly when the answers are the guess alone. |
| `Guesses.IsUseless` | model/guess.py:20-22 | `is_useless` holds exactly when all answers draw one mask and they are not the guess alone. |
| `Guesses.SolutionIsNotUseless` | model/guess.py:14-22 | A guess is never both the solution and useless. |
| `Guesses.Mean` | model/guess.py:45-47 | `mean_split_size` lies between 1 and the answer count. |
| `Guesses.NextPercentage` | model/guess.py:68-70 | `next_solving_percentage` lies in (0, 100]. |
| `Guesses.MeanTimesNext` | model/guess.py:45-70 | `next_solving_percentage == 100 / mean_split_size`. |
| `Guesses.Median` | model/guess.py:53-59 | `median_split_size` lies between the smallest and the largest split. |
| `Guesses.CurrentPercentage` | model/guess.py:81-83 | It is positive exactly when the guess is eligible, at most 100, and exactly 100 when the guess is the only answer. |
| `Guesses.StatsOf` | model/guess.py:14-83 | The statistics the keys read are consistent, and the largest split is the last size. |
| `Guesses.Equiv` | model/guess.py:98-101 | As written: False against `None` or an eligible guess, otherwise `AttributeError`; it never answers True. |
| `Guesses.EquivIntendedSameStats` | model/guess.py:98-101 | Under the intended comparison, equivalent guesses have the same answers, split sizes and sort-key statistics. |
| `Guesses.EquivIntendedSymmetric` | model/guess.py:98-101 | The intended equivalence is symmetric. |
| `Guesses.TraitsOf` | model/guess.py:104-109 | What `coalesce` reads of each guess is coherent: `equiv(None)` is False and an eligible guess is never equivalent. |
| `Guesses.Coalesce` | model/guess.py:104-113 | The generator yields, in order, the input guesses at the positions the `Coalesced` run picks, none of them useless, and raises what that run raises. |
| `Guesses.CoalesceRaisesOnTwoNonEligible` | model/guess.py:98-113 | Two leading non-eligible guesses with count ≥ 2 make `coalesce` yield at most one guess and raise `AttributeError`. |
| `Coalescing.Coalesce` | ai/guess.py:119-128 | The generator loop, with its `count`, `last` and `await_eligible` updates, gives exactly the `Coalesced` run. |
| `Coalescing.YieldsInOrder` | model/guess.py:104-113 | The yielded positions strictly increase: the output is an in-order subsequence. |
| `Coalescing.YieldsWanted` | ai/guess.py:119-128 | Every yielded guess is not useless and not equivalent to the input element just before it, whether or not that element was yielded. |
| `Coalescing.AtMostCount` | model/guess.py:104-113 | Without `await_eligible`, at most `count` guesses are yielded when `count ≥ 1`. |
| `Coalescing.AwaitsFirstEligible` | model/guess.py:104-113 | With `await_eligible`, the generator keeps going past `count` until it has yielded the first eligible, non-useless guess. |
| `Coalescing.NoneCountRaises` | model/guess.py:104-108 | As written, `count=None` raises `TypeError` at the first guess, before anything is yielded. |
| `Coalescing.UnlimitedYieldsAllWanted` | ai/guess.py:119-128 | With no limit (the intended reading of `None`), every guess worth showing is yielded and nothing is raised. |
| `Coalescing.NeverRaises` | ai/guess.py:119-128 | When no `equiv` raises, neither does the generator. |
| `Coalescing.CountGivenAgrees` | model/guess.py:104-113 | Given a count, the code as written and the intended generator agree. |
| `Sorting.MedianOf` | model/guess.py:53-59 | For an odd count the median is the middle size; for an even count it is equidistant from the two middle sizes; for ascending sizes it lies between the smallest and the largest. |
| `Sorting.Prioritize` | ai/sorting.py:16-20 | The key has length 6 + the priority length (+1 with `eligibles_first`): `always_first`, the optional `not is_eligible`, the priority, then `ordinary`. |
| `Sorting.SolutionFirst` | ai/sorting.py:7-9 | The solution's key sorts before every other guess's key. |
| `Sorting.UselessLast` | ai/sorting.py:7-9 | Tied on being the solution, a useless guess sorts after a useful one. |
| `Sorting.EligiblesFirst` | ai/sorting.py:16-20 | With `eligibles_first`, an eligible guess sorts before a non-eligible one tied on `always_first`. |
| `Sorting.WorstCaseInsertsLargest` | ai/sorting.py:22-28 | `worst_case_scenario` is `most_splits` with exactly the largest split inserted after the head. |
| `Sorting.PyIndex` | ai/sorting.py:33 | Python indexing succeeds exactly for -len ≤ i < len, counting from the end for negative i. |
| `Sorting.Percentile` | ai/sorting.py:30-34 | `percentile` raises `IndexError` exactly when there are no splits or p < -100. |
| `Sorting.PercentileIndexRange` | ai/sorting.py:30-34 | `min(n·p // 100, n-1)` lies in [0, n-1] for p ≥ 0 and n ≥ 1, is n-1 from p = 100 on, and is a valid index exactly when p ≥ -100. |
| `Sorting.Percentile100IsWorstCase` | ai/sorting.py:22-34 | At p = 100 the extra key is the largest split: the key equals `worst_case_scenario`'s. |
| `Sorting.Percentile0IsSmallest` | ai/guess.py:112-116 | At p = 0 the extra key is the smallest split size. |
| `Sorting.PercentileWithinSplits` | ai/sorting.py:30-34 | For p ≥ 0 the extra key lies between the smallest and the largest split size. |
| `MultiGuesses.New` | model/multi_guess.py:9-12 | Creating a multi-guess fails with `IndexError` exactly when there is no board; the word is the first board's. |
| `MultiGuesses.IsTheSolution` | model/multi_guess.py:14-26 | It is the solution exactly when some board's answers are its word alone. |
| `MultiGuesses.IsUseless` | model/multi_guess.py:28-30 | Useless on every board rules out a solved board and an empty one. |
| `MultiGuesses.LargestSplit` | model/multi_guess.py:32-34 | `largest_split` is the minimum of the boards' largest splits. |
| `MultiGuesses.SplitSizes` | model/multi_guess.py:44-46 | `split_sizes` is the ascending merge of all boards' sizes; its length is `n_splits` and it sums to all boards' answers. |
| `MultiGuesses.SplitsWithinCounts` | model/multi_guess.py:36-42 | The total number of splits is between the board count and the total answer count. |
| `MultiGuesses.Mean` | model/multi_guess.py:36-38 | The total answers over the total splits is at least 1. |
| `MultiGuesses.Median` | model/multi_guess.py:44-46 | The median of the merged sizes lies between the smallest and the largest. |
| `MultiGuesses.NextPercentage` | model/multi_guess.py:48-50 | `next_solving_percentage` is the minimum over boards. |
| `MultiGuesses.CurrentPercentage` | model/multi_guess.py:18-22 | `current_solving_percentage` is the maximum over boards, positive exactly when some board has the guess as an answer. |
| `MultiGuesses.IsEligible` | model/multi_guess.py:52-54 | The word is eligible exactly when it is an answer on some board (union of the answer sets). |
| `MultiGuesses.LargestWithinSizes` | model/multi_guess.py:32-46 | The smallest of the boards' largest splits lies between the smallest and the largest merged size. |
| `MultiGuesses.StatsOf` | model/multi_guess.py:14-54 | The aggregated statistics are consistent for ranking. |
| `MultiGuesses.OneBoardFlags` | model/multi_guess.py:14-30 | With one board, solution, useless and eligible equal that board's. |
| `MultiGuesses.OneBoardSplits` | model/multi_guess.py:40-46 | With one board, `n_splits` and `split_sizes` equal that board's. |
| `MultiGuesses.OneBoardLargest` | model/multi_guess.py:32-34 | With one board, the largest split and the median equal that board's. |
| `MultiGuesses.OneBoardMean` | model/multi_guess.py:36-38 | With one board, the mean split size equals that board's. |
| `MultiGuesses.OneBoardPercentages` | model/multi_guess.py:18-50 | With one board, both solving percentages equal that board's. |
| `MultiGuesses.OneBoardStats` | model/multi_guess.py:14-54 | With one board, every statistic the keys read equals that board's. |
| `AiGuesses.IsTheSolution` | ai/guess.py:13-17 | The solution's eligible solutions are its word alone, so it is eligible. |
| `AiGuesses.IsUseless` | ai/guess.py:19-21 | A useless guess has one bucket and is not the solution. |
| `AiGuesses.SplitSizes` | ai/guess.py:49-53 | `split_sizes()` is ascending, one per bucket, a permutation of the bucket sizes. |
| `AiGuesses.LargestSplit` | ai/guess.py:23-25 | `largest_split` bounds every bucket and is the last split size. |
| `AiGuesses.Mean` | ai/guess.py:33-35 | `mean_split_size` is positive. |
| `AiGuesses.Median` | ai/guess.py:41-47 | `median_split_size` lies between the smallest and the largest split. |
| `AiGuesses.NextPercentage` | ai/guess.py:55-57 | `next_solving_percentage` is positive. |
| `AiGuesses.MeanTimesNext` | ai/guess.py:33-57 | `next_solving_percentage == 100 / mean_split_size`. |
| `AiGuesses.StatsOf` | ai/guess.py:13-66 | The statistics the keys read; the largest split is the last size. |
| `AiGuesses.EquivSameStats` | ai/guess.py:82-85 | Equivalent guesses have the same answers, split sizes and sort-key statistics. |
| `AiGuesses.EquivSymmetric` | ai/guess.py:82-85 | `equiv` is symmetric. |
| `AiGuesses.TraitsOf` | ai/guess.py:82-85 | This `equiv` is coherent and never raises. |
| `AiGuesses.Coalesce` | ai/guess.py:119-128 | It yields the guesses the `Coalesced` run picks, never a useless one, and with a count it raises nothing. |
| `AiGuesses.CoalesceSkipsEquivalent` | ai/guess.py:119-128 | No yielded guess is equivalent to the input element before it, so of a run of equivalent guesses at most the first shows. |
| `AiGuesses.AgreesWithModel` | ai/guess.py:5-66 | Over the grouping of distinct answers, this guess has exactly the statistics of the `model/guess.py` guess. |
| `AiGuesses.SameAnswers` | ai/guess.py:27-39 | The grouping of distinct answers holds those answers, has the same splits, and is the solution exactly when the model guess is. |
| `Strategies.Wcs` | strategies.py:19-21 | `wcs` is a bucket size that bounds every bucket: the maximum. |
| `Strategies.ScoreOrder` | strategies.py:15-17 | The `Strategy` score prefers more buckets, then an answer, then a smaller worst case. |
| `Strategies.GreedyScoreOrder` | strategies.py:37-41 | The `Greedy` score prefers more one-answer buckets, then more buckets, then an answer, then a smaller worst case. |
| `Strategies.ComparerOrder` | strategies.py:73-74 | The `Heuristic` key prefers more buckets, then a smaller worst case, then an answer. |
| `Strategies.FirstMax` | strategies.py:12 | `max` returns the first item whose key no other key exceeds. |
| `Strategies.StrategyChoose` | strategies.py:7-13 | `ValueError` exactly on an empty space or a grouping without buckets; otherwise a word of the space. |
| `Strategies.StrategyChoosesBest` | strategies.py:7-17 | The chosen word's score is at least every word's, and strictly above every word listed before it. |
| `Strategies.FirstAnswer` | strategies.py:67 | The first ranked item whose word is an answer, or none. |
| `Strategies.GreedyChoose` | strategies.py:29-35 | `ValueError` for a grouping without buckets, `IndexError` exactly on an empty space, otherwise a word of the space. |
| `Strategies.TopTenAreBest` | strategies.py:34 | The ten kept are a descending prefix of the stable sort, and none of the rest scores above any of them. |
| `Strategies.GreedyPicksFirstAnswer` | strategies.py:29-35 | The choice is the first answer among the ten best, or the best word when none of them is an answer. |
| `Strategies.BestFacts` | strategies.py:53 | The `sorted(..., reverse=True)` ranking holds every word of the space once, scored by the heuristic key, in descending key order. |
| `Strategies.GenBestIsFirstDistinctives` | strategies.py:55-64 | `gen_best` shows exactly the first `limit` items whose bucket list differs from the previous item's or whose word is an answer. |
| `Strategies.Heuristic.GenBest` | strategies.py:55-64 | The generator loop with `counter` and `last` yields exactly those items. |
| `Strategies.HeuristicChoice` | strategies.py:48-71 | When `Heuristic.choose` returns, it returns a word of the space. `Strategies.HeuristicDecision` states which word. |
| `Strategies.AnswerRanked` | strategies.py:67 | Some ranked item is an answer exactly when some word of the space is. |
| `Strategies.DisplayedStartsWithBest` | strategies.py:66 | Nothing is displayed exactly when the threshold is ≤ 0; otherwise the top-ranked item is displayed first. |
| `Strategies.HeuristicErrors` | strategies.py:48-71 | `ValueError` for a grouping without buckets, `StopIteration` exactly when no word is an answer, `IndexError` exactly when an answer exists but nothing is displayed. |
| `Strategies.HeuristicChoiceCases` | strategies.py:66-71 | Once an answer is ranked and something is displayed, it returns the top displayed word exactly when the first-ranked answer is not among the first five displayed and that word has more buckets than the threshold. Otherwise it returns the first-ranked answer. |
| `Strategies.HeuristicDecision` | strategies.py:66-71 | When some word of the space is an answer and the threshold is positive, `choose` returns the best-ranked word exactly when the first-ranked answer is not in `displayed[:5]` and the best-ranked word has more buckets than the threshold. Otherwise it returns the first-ranked answer. A threshold of 0 or less raises `IndexError`. |
| `Strategies.HeuristicGuess` | strategies.py:66-71 | A summary over the ranking: a returned word is the first-ranked answer, or else the top-ranked word with more buckets than the threshold. |
| `Strategies.Heuristic.constructor` | strategies.py:45-46 | The heuristic keeps its threshold and has no answers stored yet. |
| `Strategies.Heuristic.Choose` | strategies.py:48-71 | `choose` stores the space's answers in `self.answers` and returns `HeuristicChoice`. |
| `Computers.Fetch` | gameplay/data.py:19-25 | A missing file reads as no cache; a present one is decoded by `unjsonify`. |
| `Computers.Computer.constructor` | gameplay/computer.py:9-11 | The computer holds its engine and starts with an empty memo. |
| `Computers.Computer.IsAnswer` | gameplay/computer.py:49-50 | `is_answer` asks the engine unchanged. |
| `Computers.Computer.ComputeGroups` | gameplay/computer.py:34-47 | `__compute_groups` maps exactly the engine's words, each to its `compute_grouping`. |
| `Computers.Computer.LoadGroups` | gameplay/computer.py:19-29 | A non-empty cached space is memoised and returned. Otherwise the computed space is memoised, written under `game_id`, and returned. |
| `Computers.Computer.SolutionSpace` | gameplay/computer.py:13-17 | A non-empty memo is returned unchanged; an empty or missing memo triggers a load. |
| `Computers.Computer.Bust` | gameplay/computer.py:31-32 | `bust` clears the memo. |
| `Computers.Computer.Update` | gameplay/computer.py:52-54 | `update` replaces the engine with its pruned copy and clears the memo. The copy keeps the hard-mode flag, holds each surviving answer once, and filters its words exactly when hard mode is on. On `KeyError` nothing changes. |
| `Computers.PrunedStillGroupable` | gameplay/computer.py:52-54 | After a successful prune, every remaining word can still be scored against every remaining answer, so the next grouping is defined. |
| `Computers.UpdateThenSolve` | gameplay/computer.py:13-54 | After `update`, the next `solution_space` is a load for the pruned engine. |
| `Data.EncodeGrouping` | gameplay/data.py:12 | Encoding a grouping gives a well-formed dict. |
| `Data.Jsonify` | gameplay/data.py:11-12 | `jsonify` keeps every word, in order, and encodes each grouping. |
| `Data.EncodeKeepsBuckets` | gameplay/data.py:12 | For valid masks of one length, every bucket is kept under its mask's hash and no buckets merge. |
| `Data.HashInjective` | model/masks.py:10-15 | The hash is one-to-one on valid masks of one length. |
| `Data.Written` | gameplay/data.py:36-40 | Dumped and loaded, the encoded space keeps well-formed groupings. |
| `Data.ParseShowInt` | gameplay/data.py:15-16 | Reading back the decimal key the JSON writer spelled gives the integer. |
| `Data.NumberedKey` | model/masks.py:48-50 | `numbered(p)` on a numeral is its five lowest base-3 digits. |
| `Data.DecimalKeyDecodes` | gameplay/data.py:16 | A key given as a decimal string decodes like the integer itself. |
| `Data.DecodeGrouping` | gameplay/data.py:16 | Decoding fails only with `ValueError`. |
| `Data.BadKeyRaises` | gameplay/data.py:16 | A key that `int` rejects makes the grouping fail with `ValueError`. |
| `Data.DecodedMasksHaveFive` | gameplay/data.py:16 | Every decoded mask has five marks in 0..2. |
| `Data.Unjsonify` | gameplay/data.py:15-16 | `unjsonify` keeps every word in order and decodes each grouping; it fails exactly when some grouping does. |
| `Data.GroupingRoundTrip` | gameplay/data.py:11-16 | A grouping whose masks have five marks in 0..2 is read back as written. |
| `Data.RoundTrip` | gameplay/data.py:11-16 | `unjsonify(jsonify(s)) == s` through the file when every mask has five marks in 0..2. |
| `Data.DecodedAsWritten` | gameplay/data.py:11-16 | Every grouping written to the cache decodes, and the decoded entries are exactly the space's. |
| `Data.OtherLengthsLost` | gameplay/data.py:16 | A mask of any other length makes the round trip lossy. |
| `Evaluators.Evaluations` | evaluators.py:29-30 | One instance per answer, in order, each caused by the guess and carrying `for_answer(answer, guess)`. |
| `Evaluators.EvaluationSolvedIff` | evaluators.py:30 | With answers of the guess's length, an instance is solved exactly when its answer is the guess. |
| `Evaluators.SolvedCountIsCopies` | evaluators.py:29-30 | The number of solved instances is the number of copies of the guess among the answers. |
| `Evaluators.FoundAnswerEvaluations` | evaluators.py:29-37 | After `answer_found`, the next evaluation drops exactly the found answer's instance, keeps the others in order, and has one solved instance fewer. |
| `Evaluators.VisitAt` | evaluators.py:31-33 | There are |visitors|·|masks| visits, and visitor i sees mask j in visit i·|masks| + j. |
| `Evaluators.Notify` | evaluators.py:31-33 | The two visitor loops make exactly the calls `Visits` lists. |
| `Evaluators.KnownAnswerEvaluator.constructor` | evaluators.py:26-27 | The evaluator holds the given answers and has no visitors. |
| `Evaluators.KnownAnswerEvaluator.Evaluate` | evaluators.py:29-34 | `evaluate` returns `Evaluations(answers, guess)` and shows every mask to every visitor; the answers are unchanged. |
| `Evaluators.KnownAnswerEvaluator.AnswerFound` | evaluators.py:36-37 | `answer_found` removes the first copy of the guess, keeping the rest in order, and raises `ValueError` exactly when the guess is absent. |
| `Evaluators.InputEvaluator.constructor` | evaluators.py:41-42 | The evaluator starts with the given mask count and no visitors. |
| `Evaluators.InputEvaluator.AnswerFound` | evaluators.py:56-57 | `answer_found` decreases the mask count by exactly one. |
| `Evaluators.Evaluator.constructor` | evaluators.py:7-8 | A new evaluator has no visitor list (`None`) and no visitors. |
| `Evaluators.Evaluator.Visitors` | evaluators.py:20-22 | `_visitors` is the list, or empty when there is none. |
| `Evaluators.Evaluator.AddVisitor` | evaluators.py:16-18 | `add_visitor` creates the list if needed and appends, so visitors are kept in call order. |

## Findings

| source | as written | input that shows it | evidently intended | confidence | as-written member | corrected member |
|---|---|---|---|---|---|---|
| model/guess.py:101 | `equiv` reads `other.__grouping`, an attribute this class never sets | any two non-eligible guesses | compare the two groupings' bucket lists, as `ai/guess.py:85` does | high (not executed) | `Guesses.Equiv` | `Guesses.EquivIntendedSameStats` |
| model/guess.py:108 | `count > 0` with the default `count=None` | `coalesce([g])` with no count | `None` means no limit | high (not executed) | `Coalescing.NoneCountRaises` | `Coalescing.UnlimitedYieldsAllWanted` |

## Left out

- Command-line handling, the turn loop, random sampling of answers, and all printing, including the visitors' `visit` output and the debug print at model/multi_guess.py:21. These are I/O. Which visitor is shown which mask is modelled.
- The terminal displays and interactive players (`gameplay/guidance.py`, `gameplay/multitracker*.py`, `gameplay/human.py`, `gameplay/player.py`, `gameplay/space_search.py`, `visitors.py`). They are display glue and `input()` loops.
- `InputEvaluator.evaluate`: it reads masks from standard input.
- The cache files (`fetch_cache`, `save_cache`, `get_cache_file`, `do_open`). The cache is a map from game identity to what a file reads back as, and `Data.Written` stands for a JSON dump followed by a load.
- Reading word lists from files (`load_file_as_list`): engines are built from sequences.
- md5 inside `game_id`: it is an uninterpreted function parameter.
- `split_stdev` in both guess classes (a floating-point square root) and all `__str__` formatting.
- Floating point: ratios are exact `real` quotients of integers.
- `cached_property` and the `__split_sizes`/`__eligibles` memo fields: memoisation with no observable effect. Each statistic is a function of the guess.
- Logging calls.
- Data.ParseInt: accepts an optional minus sign followed by digits. Python's `int` also accepts surrounding whitespace, `+` and `_` separators; only numerals written by the JSON writer reach it here.
- The order in which Python iterates a set (the pruned answers, `engine.words`) is left open: `Engines.Enumerate` may list a set in any order.
- `Computer`'s `hard_mode` argument: it is stored and never read.
- `Masks.Matches` requires the subject and the mask to be at least as long as the cause, and so do `Engines.Checkable`, `Engines.AllCheckable` and `Engine.CanPrune` in hard mode, for every instance. Every word in a game has the same length, so this always holds. Out of those bounds, `matches` would either return False before the short index or raise `IndexError`. Because `any` stops at the first accepting instance, the source would never reach a short instance after it. The model does not capture either behaviour.
