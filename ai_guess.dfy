/**
 * `ai/guess.py`: the guess the computer player ranks. It is built from a
 * word and a grouping already computed (the answers bucketed by the mask
 * they draw), so its statistics read the grouping directly; its answers
 * are the set of words in the buckets. Its `equiv` compares the two
 * groupings' bucket lists, and its `coalesce` is the shared generator.
 *
 * `Sorters` in the same file repeats `ai/sorting.py` word for word and is
 * the `Sorting` module.
 */
module AiGuesses {
  import opened Common
  import opened Collections
  import opened Dicts
  import opened Masks
  import opened Engines
  import opened Sorting
  import opened Coalescing
  import Guesses

  /** `Guess(guess, grouping)`. */
  datatype AiGuess = AiGuess(word: Word, grouping: Grouping)

  /** `__eligible_solutions`: every word in some bucket, as a set. */
  function EligibleSolutions(g: AiGuess): set<Word>
  {
    Members(g.grouping)
  }

  /** `n_splits`: the number of buckets. */
  function NSplits(g: AiGuess): nat
  {
    Len(g.grouping)
  }

  /**
   * The statistics divide by the number of buckets and of answers and take
   * the largest bucket: a guess is rankable when there is a bucket and an
   * answer (otherwise `ZeroDivisionError` or `ValueError`).
   */
  predicate Rankable(g: AiGuess)
  {
    Valid(g.grouping) && NSplits(g) >= 1 && EligibleSolutions(g) != {}
  }

  /**
   * `is_the_solution`: one bucket and the answers are the guess alone
   * (`list` of a one-element set is that element).
   */
  predicate IsTheSolution(g: AiGuess)
    ensures IsTheSolution(g) ==> EligibleSolutions(g) == {g.word} && IsEligible(g)
  {
    NSplits(g) == 1 && EligibleSolutions(g) == {g.word}
  }

  /** `is_useless`: one bucket that is not the solution, so the guess tells nothing. */
  predicate IsUseless(g: AiGuess)
    ensures IsUseless(g) ==> !IsTheSolution(g) && NSplits(g) == 1
  {
    NSplits(g) == 1 && !IsTheSolution(g)
  }

  /** `split_sizes()`: the bucket sizes, ascending. */
  function SplitSizes(g: AiGuess): (r: seq<int>)
    requires Valid(g.grouping)
    ensures |r| == NSplits(g) && Ascending(r)
    ensures multiset(r) == multiset(Sizes(g.grouping))
  {
    SortInts(Sizes(g.grouping))
  }

  /** `largest_split`: the size of the largest bucket, the last split size. */
  function LargestSplit(g: AiGuess): (r: int)
    requires Valid(g.grouping) && NSplits(g) >= 1
    ensures r == SplitSizes(g)[NSplits(g) - 1]
    ensures forall m :: m in g.grouping.entries ==> |g.grouping.entries[m]| <= r
  {
    var sizes := Sizes(g.grouping);
    MaxOfRearranged(sizes, SplitSizes(g));
    SizesOfEntries(g.grouping);
    MaxInt(sizes)
  }

  /** `mean_split_size`: answers per bucket; positive, since there are answers. */
  function Mean(g: AiGuess): (r: real)
    requires Rankable(g)
    ensures r > 0.0
  {
    Guesses.Ratio(|EligibleSolutions(g)|, NSplits(g))
  }

  /** `median_split_size`: between the smallest and the largest bucket. */
  function Median(g: AiGuess): (r: real)
    requires Valid(g.grouping) && NSplits(g) >= 1
    ensures SplitSizes(g)[0] as real <= r <= LargestSplit(g) as real
  {
    MedianOf(SplitSizes(g))
  }

  /** `next_solving_percentage`: buckets per answer, as a percentage. */
  function NextPercentage(g: AiGuess): (r: real)
    requires Rankable(g)
    ensures r > 0.0
  {
    Guesses.Percent(NSplits(g), |EligibleSolutions(g)|)
  }

  /** The next solving percentage is 100 over the mean split size. */
  lemma MeanTimesNext(g: AiGuess)
    requires Rankable(g)
    ensures NextPercentage(g) == 100.0 / Mean(g)
  {
    Guesses.RatioTimesPercent(|EligibleSolutions(g)|, NSplits(g), Mean(g), NextPercentage(g));
  }

  /** `is_eligible`: the guess is one of the answers. */
  predicate IsEligible(g: AiGuess)
  {
    g.word in EligibleSolutions(g)
  }

  /** The statistics the sort keys read. */
  function StatsOf(g: AiGuess): (s: Stats)
    requires Rankable(g)
    ensures LargestIsLast(s)
  {
    SizesShape(g);
    Stats(IsTheSolution(g), IsUseless(g), IsEligible(g), Mean(g), Median(g), LargestSplit(g), NSplits(g), SplitSizes(g))
  }

  /** The split sizes run from the smallest bucket up to the largest. */
  lemma SizesShape(g: AiGuess)
    requires Valid(g.grouping) && NSplits(g) >= 1
    ensures var ss := SplitSizes(g);
            && NSplits(g) == |ss| >= 1 && Ascending(ss)
            && ss[0] <= ss[|ss| - 1] == LargestSplit(g)
  {
    var ss := SplitSizes(g);
    assert ss[0] <= ss[|ss| - 1];
  }

  // ---------------------------------------------------------------------
  // equiv and coalesce
  // ---------------------------------------------------------------------

  /**
   * `equiv`: False against `None` or when either guess is eligible;
   * otherwise the groupings list the same buckets in the same order.
   */
  predicate Equiv(g: AiGuess, other: Option<AiGuess>)
    requires Valid(g.grouping) && (other.Some? ==> Valid(other.value.grouping))
  {
    && other.Some?
    && !IsEligible(g) && !IsEligible(other.value)
    && Values(g.grouping) == Values(other.value.grouping)
  }

  /**
   * Equivalent guesses are interchangeable in a ranking: the same answers,
   * the same split sizes, and every sort-key statistic the same.
   */
  lemma EquivSameStats(g: AiGuess, h: AiGuess)
    requires Valid(g.grouping) && Valid(h.grouping) && Equiv(g, Some(h))
    ensures EligibleSolutions(g) == EligibleSolutions(h) && SplitSizes(g) == SplitSizes(h)
    ensures Rankable(g) ==> Rankable(h) && StatsOf(g) == StatsOf(h)
  {
    SameValues(g.grouping, h.grouping);
  }

  /** Equivalence is symmetric. */
  lemma EquivSymmetric(g: AiGuess, h: AiGuess)
    requires Valid(g.grouping) && Valid(h.grouping)
    ensures Equiv(g, Some(h)) <==> Equiv(h, Some(g))
  {
  }

  /** Every guess in the list has a well-formed grouping. */
  predicate AllValid(l: seq<AiGuess>)
  {
    forall i :: 0 <= i < |l| ==> Valid(l[i].grouping)
  }

  /** What `coalesce` asks of each guess; this `equiv` never raises. */
  function TraitsOf(l: seq<AiGuess>): (ts: seq<Traits>)
    requires AllValid(l)
    ensures |ts| == |l| && Coherent(ts)
    ensures forall i :: 0 <= i < |ts| ==> ts[i].equivPrev.Ok?
  {
    seq(|l|, i requires 0 <= i < |l| =>
      Traits(IsEligible(l[i]), IsUseless(l[i]), Ok(Equiv(l[i], if i == 0 then None else Some(l[i - 1])))))
  }

  /** `coalesce(l, await_eligible, count)`, run to its end: the guesses it yields and what it raises. */
  method Coalesce(l: seq<AiGuess>, await: bool, count: Option<int>) returns (out: seq<AiGuess>, raised: Option<Error>)
    requires AllValid(l)
    ensures var run := Coalesced(TraitsOf(l), await, count);
            && raised == run.raised
            && |out| == |run.yielded|
            && forall k :: 0 <= k < |out| ==> run.yielded[k] < |l| && out[k] == l[run.yielded[k]]
    ensures count.Some? ==> raised == None
    ensures forall k :: 0 <= k < |out| ==> !IsUseless(out[k])
  {
    var ts := TraitsOf(l);
    var run := Coalescing.Coalesce(ts, await, count);
    YieldsInOrder(ts, 0, await, count);
    YieldsWanted(ts, 0, await, count);
    if count.Some? {
      NeverRaises(ts, 0, await, count);
    }
    out := seq(|run.yielded|, k requires 0 <= k < |run.yielded| => l[run.yielded[k]]);
    raised := run.raised;
  }

  /**
   * No guess `coalesce` yields is equivalent to the input element before
   * it, so of two neighbours with the same buckets at most the first shows.
   */
  lemma CoalesceSkipsEquivalent(l: seq<AiGuess>, await: bool, c: int)
    requires AllValid(l)
    ensures var ys := Coalesced(TraitsOf(l), await, Some(c)).yielded;
            forall k :: 0 <= k < |ys| ==> ys[k] < |l| && (ys[k] > 0 ==> !Equiv(l[ys[k]], Some(l[ys[k] - 1])))
  {
    var ts := TraitsOf(l);
    YieldsWanted(ts, 0, await, Some(c));
    var ys := CoalesceFrom(ts, 0, await, Some(c)).yielded;
    forall k | 0 <= k < |ys| ensures ys[k] < |l| && (ys[k] > 0 ==> !Equiv(l[ys[k]], Some(l[ys[k] - 1]))) {
      assert WorthShowing(ts, ys[k]);
    }
  }

  // ---------------------------------------------------------------------
  // Agreement with the model guess
  // ---------------------------------------------------------------------

  /**
   * Built from the grouping of distinct answers, the AI guess has exactly
   * the statistics of the model guess over those answers: the two classes
   * rank alike. (With repeated answers they differ: the AI guess counts
   * answers as a set, the model guess as a list.)
   */
  lemma AgreesWithModel(word: Word, answers: seq<Word>)
    requires Scorable(answers, word) && answers != [] && Distinct(answers)
    ensures var g, m := AiGuess(word, Grouped(answers, word)), Guesses.Guess(word, answers);
            && Rankable(g) && Guesses.Scores(m)
            && StatsOf(g) == Guesses.StatsOf(m)
            && NextPercentage(g) == Guesses.NextPercentage(m)
  {
    SameAnswers(word, answers);
  }

  /** The grouping of distinct answers holds those answers, and is the solution exactly when the model guess is. */
  lemma SameAnswers(word: Word, answers: seq<Word>)
    requires Scorable(answers, word) && answers != [] && Distinct(answers)
    ensures var g, m := AiGuess(word, Grouped(answers, word)), Guesses.Guess(word, answers);
            && EligibleSolutions(g) == Elems(answers) && |EligibleSolutions(g)| == |answers|
            && NSplits(g) == Guesses.NSplits(m)
            && (IsTheSolution(g) <==> Guesses.IsTheSolution(m))
  {
    var g, m := AiGuess(word, Grouped(answers, word)), Guesses.Guess(word, answers);
    GroupedIsGroupBy(answers, word);
    GroupByMembers(answers, MasksFor(answers, word));
    ElemsCard(answers);
    assert IsTheSolution(g) <==> answers == [word] by {
      if Elems(answers) == {word} {
        assert |answers| == 1;
        assert answers[0] in Elems(answers);
      }
      if answers == [word] {
        Guesses.OneSplit(m);
      }
    }
  }
}
