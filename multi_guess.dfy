/**
 * `model/multi_guess.py`: one word guessed on several boards at once
 * (multi-board Wordle). A `MultiGuess` holds the per-board `Guess`es of
 * that word and aggregates their statistics: any board solved, all boards
 * useless, the smallest largest split, splits and answers added up, the
 * merged split sizes, the worst next-solving and the best current-solving
 * percentage.
 */
module MultiGuesses {
  import opened Common
  import opened Collections
  import opened Sorting
  import opened Guesses

  /** The guesses of one word on each board, in board order. */
  datatype MultiGuess = MultiGuess(boards: seq<Guess>)

  /** Every board can score its answers. */
  predicate Scoring(mg: MultiGuess)
  {
    |mg.boards| >= 1 && forall i :: 0 <= i < |mg.boards| ==> Scores(mg.boards[i])
  }

  /** Every board also has answers left, so its ratios and maxima exist. */
  predicate Full(mg: MultiGuess)
  {
    Scoring(mg) && forall i :: 0 <= i < |mg.boards| ==> mg.boards[i].answers != []
  }

  /** `MultiGuess(*guess)`: reading `guess[0]` raises `IndexError` when there is no board. */
  function New(boards: seq<Guess>): (r: Result<MultiGuess>)
    ensures r.Err? <==> boards == []
    ensures r.Err? ==> r.error == IndexError
    ensures r.Ok? ==> r.value.boards == boards && Word(r.value) == boards[0].word
  {
    if boards == [] then Err(IndexError) else Ok(MultiGuess(boards))
  }

  /** The word, taken from the first board. */
  function Word(mg: MultiGuess): Word
    requires |mg.boards| >= 1
  {
    mg.boards[0].word
  }

  /** `is_the_solution` (`is_a_solution`): some board's answers are the guess alone. */
  predicate IsTheSolution(mg: MultiGuess)
    requires Scoring(mg)
    ensures IsTheSolution(mg) <==> exists i :: 0 <= i < |mg.boards| && mg.boards[i].answers == [mg.boards[i].word]
  {
    exists i :: 0 <= i < |mg.boards| && Guesses.IsTheSolution(mg.boards[i])
  }

  /** `is_useless`: every board's guess is useless, which rules out a solved board. */
  predicate IsUseless(mg: MultiGuess)
    requires Scoring(mg)
    ensures IsUseless(mg) ==> !IsTheSolution(mg) && forall i :: 0 <= i < |mg.boards| ==> mg.boards[i].answers != []
  {
    forall i :: 0 <= i < |mg.boards| ==> Guesses.IsUseless(mg.boards[i])
  }

  /** Each board's largest split. */
  function Largests(mg: MultiGuess): (r: seq<int>)
    requires Full(mg)
    ensures |r| == |mg.boards|
  {
    seq(|mg.boards|, i requires 0 <= i < |mg.boards| => Guesses.LargestSplit(mg.boards[i]))
  }

  /** `largest_split`: the smallest of the boards' largest splits. */
  function LargestSplit(mg: MultiGuess): (r: int)
    requires Full(mg)
    ensures r in Largests(mg)
    ensures forall i :: 0 <= i < |mg.boards| ==> r <= Largests(mg)[i]
  {
    MinInt(Largests(mg))
  }

  /** Each board's number of splits. */
  function Splits(mg: MultiGuess): (r: seq<int>)
    requires Scoring(mg)
    ensures |r| == |mg.boards|
  {
    seq(|mg.boards|, i requires 0 <= i < |mg.boards| => Guesses.NSplits(mg.boards[i]))
  }

  /** `n_splits`: the boards' splits added up. */
  function NSplits(mg: MultiGuess): int
    requires Scoring(mg)
  {
    Sum(Splits(mg))
  }

  /** Each board's answer count (`len(guess._eligible_solutions)`). */
  function Counts(mg: MultiGuess): (r: seq<int>)
    ensures |r| == |mg.boards|
  {
    seq(|mg.boards|, i requires 0 <= i < |mg.boards| => |mg.boards[i].answers|)
  }

  /** Each board's ascending split sizes. */
  function BoardSizes(mg: MultiGuess): (r: seq<seq<int>>)
    requires Scoring(mg)
    ensures |r| == |mg.boards|
  {
    seq(|mg.boards|, i requires 0 <= i < |mg.boards| => Guesses.SplitSizes(mg.boards[i]))
  }

  /**
   * `split_sizes`: every board's split sizes merged and sorted, one per
   * split of any board, adding up to all the boards' answers.
   */
  function SplitSizes(mg: MultiGuess): (r: seq<int>)
    requires Scoring(mg)
    ensures Ascending(r) && multiset(r) == multiset(Concat(BoardSizes(mg)))
    ensures |r| == NSplits(mg)
    ensures Sum(r) == Sum(Counts(mg))
  {
    var bs := BoardSizes(mg);
    ConcatSum(bs);
    assert seq(|bs|, i requires 0 <= i < |bs| => |bs[i]|) == Splits(mg);
    assert seq(|bs|, i requires 0 <= i < |bs| => Sum(bs[i])) == Counts(mg);
    SortInts(Concat(bs))
  }

  /** A board with answers has at least one split, and no more splits than answers. */
  lemma SplitsWithinCounts(mg: MultiGuess)
    requires Full(mg)
    ensures |mg.boards| <= NSplits(mg) <= Sum(Counts(mg))
  {
    var ones := seq(|mg.boards|, i requires 0 <= i < |mg.boards| => 1);
    var splits, counts := Splits(mg), Counts(mg);
    forall i | 0 <= i < |mg.boards| ensures ones[i] <= splits[i] <= counts[i] {
      assert splits[i] == Guesses.NSplits(mg.boards[i]);
    }
    SumLe(ones, splits);
    SumLe(splits, counts);
    SumOnes(ones);
  }

  lemma {:induction false} SumOnes(s: seq<int>)
    requires forall i :: 0 <= i < |s| ==> s[i] == 1
    ensures Sum(s) == |s|
  {
    if s != [] {
      SumOnes(s[1..]);
    }
  }

  /** `mean_split_size`: all the boards' answers over all their splits, at least one. */
  function Mean(mg: MultiGuess): (r: real)
    requires Full(mg)
    ensures r >= 1.0
  {
    SplitsWithinCounts(mg);
    RatioBounds(Sum(Counts(mg)), NSplits(mg));
    Ratio(Sum(Counts(mg)), NSplits(mg))
  }

  /** `median_split_size` (inherited): the median of the merged split sizes. */
  function Median(mg: MultiGuess): (r: real)
    requires Full(mg)
    ensures SplitSizes(mg)[0] as real <= r <= SplitSizes(mg)[|SplitSizes(mg)| - 1] as real
  {
    SplitsWithinCounts(mg);
    MedianOf(SplitSizes(mg))
  }

  /** Each board's next solving percentage. */
  function Nexts(mg: MultiGuess): (r: seq<real>)
    requires Full(mg)
    ensures |r| == |mg.boards|
  {
    seq(|mg.boards|, i requires 0 <= i < |mg.boards| => Guesses.NextPercentage(mg.boards[i]))
  }

  /** `next_solving_percentage`: the worst board's. */
  function NextPercentage(mg: MultiGuess): (r: real)
    requires Full(mg)
    ensures r in Nexts(mg)
    ensures forall i :: 0 <= i < |mg.boards| ==> r <= Nexts(mg)[i]
  {
    MinReal(Nexts(mg))
  }

  /** Each board's current solving percentage. */
  function Currents(mg: MultiGuess): (r: seq<real>)
    ensures |r| == |mg.boards|
  {
    seq(|mg.boards|, i requires 0 <= i < |mg.boards| => Guesses.CurrentPercentage(mg.boards[i]))
  }

  /** `current_solving_percentage`: the best board's; positive exactly when some board's answers hold its word. */
  function CurrentPercentage(mg: MultiGuess): (r: real)
    requires |mg.boards| >= 1
    ensures r in Currents(mg)
    ensures forall i :: 0 <= i < |mg.boards| ==> Currents(mg)[i] <= r
    ensures r > 0.0 <==> exists i :: 0 <= i < |mg.boards| && Guesses.IsEligible(mg.boards[i])
  {
    var cs := Currents(mg);
    var r := MaxReal(cs);
    assert r > 0.0 ==> exists i :: 0 <= i < |mg.boards| && Guesses.IsEligible(mg.boards[i]) by {
      if r > 0.0 {
        var i :| 0 <= i < |cs| && cs[i] == r;
        assert Guesses.IsEligible(mg.boards[i]);
      }
    }
    assert (exists i :: 0 <= i < |mg.boards| && Guesses.IsEligible(mg.boards[i])) ==> r > 0.0 by {
      if exists i :: 0 <= i < |mg.boards| && Guesses.IsEligible(mg.boards[i]) {
        var i :| 0 <= i < |mg.boards| && Guesses.IsEligible(mg.boards[i]);
        assert cs[i] > 0.0;
      }
    }
    r
  }

  /** `_eligible_solutions`: the union of the boards' answers. */
  function EligibleSolutions(mg: MultiGuess): set<Word>
  {
    set i, w | 0 <= i < |mg.boards| && w in mg.boards[i].answers :: w
  }

  /** `is_eligible` (inherited): the word is an answer on some board. */
  predicate IsEligible(mg: MultiGuess)
    requires |mg.boards| >= 1
    ensures IsEligible(mg) <==> exists i :: 0 <= i < |mg.boards| && Word(mg) in mg.boards[i].answers
  {
    Word(mg) in EligibleSolutions(mg)
  }

  /**
   * The smallest of the boards' largest splits is one of the merged split
   * sizes, so it lies between the smallest and the largest of them.
   */
  lemma LargestWithinSizes(mg: MultiGuess)
    requires Full(mg)
    ensures var ss := SplitSizes(mg); |ss| > 0 && ss[0] <= LargestSplit(mg) <= ss[|ss| - 1]
  {
    var i :| 0 <= i < |mg.boards| && LargestSplit(mg) == Largests(mg)[i];
    var g := mg.boards[i];
    LargestIsLastSize(g);
    assert BoardSizes(mg)[i] == Guesses.SplitSizes(g);
    LastWithinRearranged(BoardSizes(mg), SplitSizes(mg), i);
  }

  /** The statistics the sort keys read. */
  function StatsOf(mg: MultiGuess): (s: Stats)
    requires Full(mg)
    ensures Consistent(s)
  {
    SplitsWithinCounts(mg);
    LargestWithinSizes(mg);
    var n, ss, largest := NSplits(mg), SplitSizes(mg), LargestSplit(mg);
    assert n >= 1 && |ss| == n && Ascending(ss) && ss[0] <= largest <= ss[n - 1];
    Stats(IsTheSolution(mg), IsUseless(mg), IsEligible(mg), Mean(mg), Median(mg), largest, n, ss)
  }

  /** With one board, the aggregated flags are that board's own. */
  lemma OneBoardFlags(g: Guess)
    requires Scores(g)
    ensures var mg := MultiGuess([g]);
            && IsTheSolution(mg) == Guesses.IsTheSolution(g)
            && IsUseless(mg) == Guesses.IsUseless(g)
            && IsEligible(mg) == Guesses.IsEligible(g)
  {
    var mg := MultiGuess([g]);
    assert mg.boards[0] == g;
    assert IsTheSolution(mg) ==> Guesses.IsTheSolution(g);
    assert Guesses.IsEligible(g) ==> IsEligible(mg);
  }

  /** With one board, the splits and their sizes are that board's own. */
  lemma OneBoardSplits(g: Guess)
    requires Scores(g) && g.answers != []
    ensures var mg := MultiGuess([g]);
            && NSplits(mg) == Guesses.NSplits(g)
            && SplitSizes(mg) == Guesses.SplitSizes(g)
  {
    var mg := MultiGuess([g]);
    var n, ss := Guesses.NSplits(g), Guesses.SplitSizes(g);
    assert Splits(mg) == [n];
    assert Sum([n]) == n;
    var bs := BoardSizes(mg);
    assert bs == [ss];
    assert bs[1..] == [];
    assert Concat(bs) == ss + Concat(bs[1..]);
    assert Concat(bs) == ss;
    SortIntsOfAscending(ss);
  }

  /** With one board, the largest split and the median are that board's own. */
  lemma OneBoardLargest(g: Guess)
    requires Scores(g) && g.answers != []
    ensures var mg := MultiGuess([g]);
            && LargestSplit(mg) == Guesses.LargestSplit(g)
            && Median(mg) == Guesses.Median(g)
  {
    var mg := MultiGuess([g]);
    assert Largests(mg) == [Guesses.LargestSplit(g)];
    OneBoardSplits(g);
  }

  /** With one board, the mean split size is that board's own. */
  lemma OneBoardMean(g: Guess)
    requires Scores(g) && g.answers != []
    ensures Mean(MultiGuess([g])) == Guesses.Mean(g)
  {
    var mg := MultiGuess([g]);
    OneBoardSplits(g);
    var c := |g.answers|;
    assert Counts(mg) == [c];
    assert Sum([c]) == c;
  }

  /** With one board, the next and current solving percentages are that board's own. */
  lemma OneBoardPercentages(g: Guess)
    requires Scores(g) && g.answers != []
    ensures var mg := MultiGuess([g]);
            && NextPercentage(mg) == Guesses.NextPercentage(g)
            && CurrentPercentage(mg) == Guesses.CurrentPercentage(g)
  {
    var mg := MultiGuess([g]);
    assert Nexts(mg) == [Guesses.NextPercentage(g)];
    assert Currents(mg) == [Guesses.CurrentPercentage(g)];
  }

  /** With one board, the guess ranks exactly as that board's guess: all its statistics agree. */
  lemma OneBoardStats(g: Guess)
    requires Scores(g) && g.answers != []
    ensures StatsOf(MultiGuess([g])) == Guesses.StatsOf(g)
  {
    OneBoardFlags(g);
    OneBoardSplits(g);
    OneBoardLargest(g);
    OneBoardMean(g);
  }
}
