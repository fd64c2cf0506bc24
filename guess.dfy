/**
 * `model/guess.py`: a candidate guess scored against the answers still
 * possible. Its statistics describe how well the guess splits the answers
 * (the buckets of `compute_grouping`); `equiv` and `coalesce` thin out a
 * ranked list of guesses.
 *
 * The `cached_property` memos and the lazily filled `__eligibles` and
 * `__split_sizes` fields only save recomputation, so each statistic is a
 * function of the guess.
 */
module Guesses {
  import opened Common
  import opened Collections
  import opened Dicts
  import opened Masks
  import opened Engines
  import opened Sorting
  import opened Coalescing

  /** `Guess(guess, answers)`: the word and the answers it is scored against, in iteration order. */
  datatype Guess = Guess(word: Word, answers: seq<Word>)

  /** `for_answer` can score every answer against the word. */
  predicate Scores(g: Guess)
  {
    Scorable(g.answers, g.word)
  }

  /** `_answer_groupings`: the answers grouped by the mask they draw for the word. */
  method AnswerGroupings(g: Guess) returns (d: Grouping)
    requires Scores(g)
    ensures d == Grouped(g.answers, g.word)
    ensures Valid(d) && Sum(Sizes(d)) == |g.answers|
    ensures forall a :: a in g.answers ==> a in Bucket(d, Feedback(a, g.word))
  {
    d := GroupAnswers(g.answers, g.word);
    GroupingShape(g.answers, g.word);
    AnswersFiled(g.answers, g.word);
  }

  /** `n_splits`: the number of buckets, that is of distinct masks the answers draw. */
  function NSplits(g: Guess): (n: nat)
    requires Scores(g)
    ensures n == |Elems(MasksFor(g.answers, g.word))|
    ensures n <= |g.answers| && (n == 0 <==> g.answers == [])
  {
    var ms := MasksFor(g.answers, g.word);
    GroupedIsGroupBy(g.answers, g.word);
    ElemsCard(FirstSeen(ms));
    ElemsCard(ms);
    assert g.answers != [] ==> ms[0] in Elems(ms);
    Len(Grouped(g.answers, g.word))
  }

  /** Exactly one bucket: there are answers and they all draw the same mask. */
  lemma OneSplit(g: Guess)
    requires Scores(g)
    ensures NSplits(g) == 1 <==> g.answers != [] && forall a :: a in g.answers ==> Feedback(a, g.word) == Feedback(g.answers[0], g.word)
  {
    var ms := MasksFor(g.answers, g.word);
    if g.answers != [] {
      var m0 := ms[0];
      if forall a :: a in g.answers ==> Feedback(a, g.word) == m0 {
        assert Elems(ms) == {m0};
      } else {
        var a :| a in g.answers && Feedback(a, g.word) != m0;
        var i :| 0 <= i < |g.answers| && g.answers[i] == a;
        assert {m0, ms[i]} <= Elems(ms);
        assert |{m0, ms[i]}| == 2;
        SubsetCard({m0, ms[i]}, Elems(ms));
      }
    }
  }

  lemma SubsetCard<T>(a: set<T>, b: set<T>)
    requires a <= b
    ensures |a| <= |b|
  {
    assert b == a + (b - a);
  }

  /** `split_sizes`: the bucket sizes, ascending, one per split, all positive, adding up to the answers. */
  function SplitSizes(g: Guess): (r: seq<int>)
    requires Scores(g)
    ensures |r| == NSplits(g) && Ascending(r)
    ensures Sum(r) == |g.answers|
    ensures forall k :: 0 <= k < |r| ==> r[k] >= 1
    ensures multiset(r) == multiset(Sizes(Grouped(g.answers, g.word)))
  {
    var d := Grouped(g.answers, g.word);
    GroupingShape(g.answers, g.word);
    var r := SortInts(Sizes(d));
    forall k | 0 <= k < |r| ensures r[k] >= 1 {
      assert r[k] in multiset(Sizes(d));
      var j :| 0 <= j < |Sizes(d)| && Sizes(d)[j] == r[k];
      assert d.keys[j] in d.entries;
    }
    r
  }

  /** `largest_split`: the size of the largest bucket, the last of the ascending split sizes. */
  function LargestSplit(g: Guess): (r: int)
    requires Scores(g) && g.answers != []
    ensures r == SplitSizes(g)[NSplits(g) - 1]
    ensures forall m :: m in Grouped(g.answers, g.word).entries ==> |Grouped(g.answers, g.word).entries[m]| <= r
  {
    var d := Grouped(g.answers, g.word);
    MaxOfRearranged(Sizes(d), SplitSizes(g));
    SizesOfEntries(d);
    MaxInt(Sizes(d))
  }

  /** The largest split is the last of the split sizes, of which there is at least one. */
  lemma LargestIsLastSize(g: Guess)
    requires Scores(g) && g.answers != []
    ensures var ss := SplitSizes(g); |ss| > 0 && LargestSplit(g) == ss[|ss| - 1]
  {
    var n, ss := NSplits(g), SplitSizes(g);
    assert n >= 1 && |ss| == n;
  }

  /** `is_the_solution`: exactly when the answers are the guess alone. */
  predicate IsTheSolution(g: Guess)
    requires Scores(g)
    ensures IsTheSolution(g) <==> g.answers == [g.word]
  {
    assert g.answers == [g.word] ==> NSplits(g) == 1 by {
      if g.answers == [g.word] {
        assert MasksFor(g.answers, g.word) == [Feedback(g.word, g.word)];
        assert Elems(MasksFor(g.answers, g.word)) == {Feedback(g.word, g.word)};
      }
    }
    NSplits(g) == 1 && g.answers == [g.word]
  }

  /** `is_useless`: every answer draws the same mask, and the guess is not the solution. */
  predicate IsUseless(g: Guess)
    requires Scores(g)
    ensures IsUseless(g) <==> && g.answers != [] && g.answers != [g.word]
                              && forall a :: a in g.answers ==> Feedback(a, g.word) == Feedback(g.answers[0], g.word)
  {
    OneSplit(g);
    NSplits(g) == 1 && !IsTheSolution(g)
  }

  /** A guess is never both the solution and useless. */
  lemma SolutionIsNotUseless(g: Guess)
    requires Scores(g)
    ensures !(IsTheSolution(g) && IsUseless(g))
  {
  }

  /** `mean_split_size`: answers per split, at least one and at most all of them. */
  function Mean(g: Guess): (r: real)
    requires Scores(g) && g.answers != []
    ensures 1.0 <= r <= |g.answers| as real
  {
    RatioBounds(|g.answers|, NSplits(g));
    Ratio(|g.answers|, NSplits(g))
  }

  /** `next_solving_percentage`: splits per answer, as a percentage in (0, 100]. */
  function NextPercentage(g: Guess): (r: real)
    requires Scores(g) && g.answers != []
    ensures 0.0 < r <= 100.0
  {
    PercentBounds(NSplits(g), |g.answers|);
    Percent(NSplits(g), |g.answers|)
  }

  /** The next solving percentage is 100 divided by the mean split size. */
  lemma MeanTimesNext(g: Guess)
    requires Scores(g) && g.answers != []
    ensures NextPercentage(g) == 100.0 / Mean(g)
  {
    RatioTimesPercent(|g.answers|, NSplits(g), Mean(g), NextPercentage(g));
  }

  /** `median_split_size`: between the smallest and the largest split. */
  function Median(g: Guess): (r: real)
    requires Scores(g) && g.answers != []
    ensures SplitSizes(g)[0] as real <= r <= LargestSplit(g) as real
  {
    MedianOf(SplitSizes(g))
  }

  /** `is_eligible`: the guess is one of the answers. */
  predicate IsEligible(g: Guess)
  {
    g.word in g.answers
  }

  /**
   * `current_solving_percentage`: the chance the guess wins now, positive
   * exactly when it is eligible, and 100 exactly when it is the only answer.
   */
  function CurrentPercentage(g: Guess): (r: real)
    ensures r > 0.0 <==> IsEligible(g)
    ensures r <= 100.0
    ensures r == 100.0 <==> g.answers == [g.word]
  {
    if g.word in g.answers then
      var a := |g.answers| as real;
      ShareBounds(a);
      assert a == 1.0 <==> g.answers == [g.word] by {
        if a == 1.0 {
          assert g.answers[0] == g.word;
        }
      }
      100.0 / a
    else
      0.0
  }

  /** `a / n` on ints, Python's true division. */
  function Ratio(a: int, n: int): real
    requires n != 0
  {
    a as real / n as real
  }

  /** `100 * n / a`. */
  function Percent(n: int, a: int): real
    requires a != 0
  {
    100.0 * n as real / a as real
  }

  lemma RatioBounds(a: int, n: int)
    requires 1 <= n <= a
    ensures 1.0 <= Ratio(a, n) <= a as real
  {
    var x, y := a as real, n as real;
    assert x / y * y == x;
    assert x / y * 1.0 <= x / y * y;
  }

  lemma PercentBounds(n: int, a: int)
    requires 0 < n <= a
    ensures 0.0 < Percent(n, a) <= 100.0
  {
    var x, y := a as real, n as real;
    assert 100.0 * y / x * x == 100.0 * y;
  }

  lemma RatioTimesPercent(a: int, n: int, m: real, p: real)
    requires a > 0 && n > 0 && m == Ratio(a, n) && p == Percent(n, a)
    ensures p == 100.0 / m
  {
    var x, y := a as real, n as real;
    assert x / y * y == x;
    assert 100.0 * y / x * x == 100.0 * y;
  }

  lemma ShareBounds(a: real)
    requires a >= 1.0
    ensures 100.0 / a <= 100.0
    ensures 100.0 / a == 100.0 <==> a == 1.0
  {
    assert 100.0 / a * a == 100.0;
  }

  /** The statistics the sort keys read. */
  function StatsOf(g: Guess): (s: Stats)
    requires Scores(g) && g.answers != []
    ensures LargestIsLast(s)
  {
    var ss, largest := SplitSizes(g), LargestSplit(g);
    LargestIsLastSize(g);
    assert ss[0] <= ss[|ss| - 1];
    Stats(IsTheSolution(g), IsUseless(g), IsEligible(g), Mean(g), Median(g), largest, NSplits(g), ss)
  }

  // ---------------------------------------------------------------------
  // equiv
  // ---------------------------------------------------------------------

  /**
   * `equiv` as written: False against `None` or when either guess is
   * eligible; otherwise it reads `other.__grouping`, an attribute this
   * class never sets, and raises `AttributeError`. It never answers True.
   */
  function Equiv(g: Guess, other: Option<Guess>): (r: Result<bool>)
    ensures r.Err? <==> other.Some? && !IsEligible(g) && !IsEligible(other.value)
    ensures r.Err? ==> r.error == AttributeError
    ensures r != Ok(true)
  {
    if other.None? then Ok(false)
    else if IsEligible(g) || IsEligible(other.value) then Ok(false)
    else Err(AttributeError)
  }

  /**
   * `equiv` as evidently intended (and as `ai/guess.py` has it): two
   * non-eligible guesses are equivalent when their groupings list the same
   * buckets in the same order.
   */
  predicate EquivIntended(g: Guess, other: Option<Guess>)
    requires Scores(g) && (other.Some? ==> Scores(other.value))
  {
    && other.Some?
    && !IsEligible(g) && !IsEligible(other.value)
    && Values(Grouped(g.answers, g.word)) == Values(Grouped(other.value.answers, other.value.word))
  }

  /**
   * Equivalent guesses are interchangeable in a ranking: they have the
   * same answers, the same split sizes and so the same sort-key statistics.
   */
  lemma EquivIntendedSameStats(g: Guess, h: Guess)
    requires Scores(g) && Scores(h) && EquivIntended(g, Some(h))
    ensures Elems(g.answers) == Elems(h.answers) && |g.answers| == |h.answers|
    ensures SplitSizes(g) == SplitSizes(h)
    ensures g.answers != [] ==> StatsOf(g) == StatsOf(h)
  {
    var d, e := Grouped(g.answers, g.word), Grouped(h.answers, h.word);
    SameValues(d, e);
    GroupingShape(g.answers, g.word);
    GroupingShape(h.answers, h.word);
    GroupedIsGroupBy(g.answers, g.word);
    GroupedIsGroupBy(h.answers, h.word);
    GroupByMembers(g.answers, MasksFor(g.answers, g.word));
    GroupByMembers(h.answers, MasksFor(h.answers, h.word));
    assert NSplits(g) == Len(d) == Len(e) == NSplits(h);
  }

  /** Equivalence as intended is symmetric. */
  lemma EquivIntendedSymmetric(g: Guess, h: Guess)
    requires Scores(g) && Scores(h)
    ensures EquivIntended(g, Some(h)) <==> EquivIntended(h, Some(g))
  {
  }

  // ---------------------------------------------------------------------
  // coalesce
  // ---------------------------------------------------------------------

  /** What `coalesce` asks of each guess, `last` being the input element before it. */
  function TraitsOf(l: seq<Guess>): (ts: seq<Traits>)
    requires forall g :: g in l ==> Scores(g)
    ensures |ts| == |l| && Coherent(ts)
  {
    seq(|l|, i requires 0 <= i < |l| =>
      Traits(IsEligible(l[i]), IsUseless(l[i]), Equiv(l[i], if i == 0 then None else Some(l[i - 1]))))
  }

  /** `coalesce(l, await_eligible, count)`, run to its end: the guesses it yields and what it raises. */
  method Coalesce(l: seq<Guess>, await: bool, count: Option<int>) returns (out: seq<Guess>, raised: Option<Error>)
    requires forall g :: g in l ==> Scores(g)
    ensures var run := Coalesced(TraitsOf(l), await, count);
            && raised == run.raised
            && |out| == |run.yielded|
            && forall k :: 0 <= k < |out| ==> run.yielded[k] < |l| && out[k] == l[run.yielded[k]]
    ensures forall g :: g in out ==> g in l && !IsUseless(g)
  {
    var ts := TraitsOf(l);
    var run := Coalescing.Coalesce(ts, await, count);
    YieldsInOrder(ts, 0, await, count);
    YieldsWanted(ts, 0, await, count);
    out := seq(|run.yielded|, k requires 0 <= k < |run.yielded| => l[run.yielded[k]]);
    raised := run.raised;
  }

  /**
   * Two non-eligible guesses in a row crash `coalesce` through `equiv`,
   * unless it has stopped before the second: the generator yields at
   * most the first of them and raises `AttributeError`.
   */
  lemma CoalesceRaisesOnTwoNonEligible(l: seq<Guess>, await: bool, c: int)
    requires forall g :: g in l ==> Scores(g)
    requires |l| >= 2 && !IsEligible(l[0]) && !IsEligible(l[1]) && c >= 2
    ensures var run := Coalesced(TraitsOf(l), await, Some(c));
            run.raised == Some(AttributeError) && |run.yielded| <= 1
  {
    var ts := TraitsOf(l);
    assert ts[0].equivPrev == Ok(false);
    assert ts[1].equivPrev == Err(AttributeError);
    forall aw: bool, left: Option<int> ensures CoalesceFrom(ts, 1, aw, left) == Run([], Some(AttributeError)) {
    }
    var r0 := CoalesceFrom(ts, 0, await, Some(c));
    assert r0 == Then([0], CoalesceFrom(ts, 1, await && !ts[0].eligible, Some(c - 1)))
        || r0 == CoalesceFrom(ts, 1, await && !ts[0].eligible, Some(c));
  }
}
