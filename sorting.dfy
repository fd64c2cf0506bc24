/**
 * The ranking keys of `ai/sorting.py` (duplicated as `Sorters` in
 * `ai/guess.py`). A key is a tuple of guess statistics; guesses are listed
 * in ascending key order, so a smaller key ranks higher. Booleans enter a
 * key as 0.0 (False) and 1.0 (True).
 */
module Sorting {
  import opened Common
  import opened Collections

  /**
   * The statistics a key reads from a guess. `model.Guess`, `MultiGuess`
   * and `ai.Guess` each provide them (their `StatsOf` functions).
   */
  datatype Stats = Stats(
    isTheSolution: bool,
    isUseless: bool,
    isEligible: bool,
    mean: real,
    median: real,
    largest: int,
    nSplits: int,
    splitSizes: seq<int>)

  /**
   * What every guess kind guarantees of its statistics: the split sizes
   * are ascending, one per split, and the reported largest split lies
   * between the smallest and the largest split size.
   */
  predicate Consistent(s: Stats)
  {
    && s.nSplits == |s.splitSizes| >= 1
    && Ascending(s.splitSizes)
    && s.splitSizes[0] <= s.largest <= s.splitSizes[|s.splitSizes| - 1]
  }

  /**
   * A single board's statistics: the largest split is the last split
   * size. (A multi-board guess reports the smallest of its boards'
   * largest splits instead.)
   */
  predicate LargestIsLast(s: Stats)
  {
    Consistent(s) && s.largest == s.splitSizes[|s.splitSizes| - 1]
  }

  /** `median_split_size`: the middle size, or the mean of the two middle sizes. */
  function MedianOf(ss: seq<int>): (r: real)
    requires |ss| > 0
    ensures Ascending(ss) ==> ss[0] as real <= r <= ss[|ss| - 1] as real
    ensures |ss| % 2 == 1 ==> r == ss[|ss| / 2] as real
    ensures |ss| % 2 == 0 ==> r - ss[|ss| / 2 - 1] as real == ss[|ss| / 2] as real - r
  {
    var n := |ss|;
    if n % 2 == 0 then (ss[n / 2 - 1] + ss[n / 2]) as real / 2.0 else ss[n / 2] as real
  }

  /** `always_first`: `(not is_the_solution, is_useless)`. */
  function AlwaysFirst(s: Stats): seq<real>
  {
    [Flag(!s.isTheSolution), Flag(s.isUseless)]
  }

  /** `ordinary`: `(mean, median, largest split, not is_eligible)`. */
  function Ordinary(s: Stats): seq<real>
  {
    [s.mean, s.median, s.largest as real, Flag(!s.isEligible)]
  }

  /**
   * `prioritize`: `always_first`, then `not is_eligible` when eligible
   * guesses go first, then the priority tuple, then `ordinary`.
   */
  function Prioritize(s: Stats, priority: seq<real>, eligiblesFirst: bool): (k: seq<real>)
    ensures |k| == 6 + |priority| + (if eligiblesFirst then 1 else 0)
    ensures k[..2] == AlwaysFirst(s) && k[|k| - 4..] == Ordinary(s)
    ensures eligiblesFirst ==> k[2] == Flag(!s.isEligible)
    ensures k[|k| - 4 - |priority|..|k| - 4] == priority
  {
    AlwaysFirst(s) + (if eligiblesFirst then [Flag(!s.isEligible)] else []) + priority + Ordinary(s)
  }

  /** `worst_case_scenario`: the largest split as the priority. */
  function WorstCaseScenario(s: Stats, eligiblesFirst: bool): seq<real>
  {
    Prioritize(s, [s.largest as real], eligiblesFirst)
  }

  /** `most_splits`: no priority. */
  function MostSplits(s: Stats, eligiblesFirst: bool): seq<real>
  {
    Prioritize(s, [], eligiblesFirst)
  }

  /** `min(n * p // 100, n - 1)`; `//` floors, as Dafny's `/` does for a positive divisor. */
  function PercentileIndex(n: int, p: int): int
  {
    var i := n * p / 100;
    if i <= n - 1 then i else n - 1
  }

  /** Python's `s[i]`: a negative index counts from the end. */
  function PyIndex<T>(s: seq<T>, i: int): (r: Result<T>)
    ensures r.Ok? <==> -|s| <= i < |s|
    ensures 0 <= i < |s| ==> r == Ok(s[i])
    ensures -|s| <= i < 0 ==> r == Ok(s[|s| + i])
  {
    if 0 <= i < |s| then Ok(s[i])
    else if -|s| <= i < 0 then Ok(s[|s| + i])
    else Err(IndexError)
  }

  /** `percentile`: the split size at the `p`-th percentile as the priority. */
  function Percentile(s: Stats, p: int, eligiblesFirst: bool): (r: Result<seq<real>>)
    ensures s.nSplits == |s.splitSizes| ==> (r.Err? <==> s.nSplits == 0 || p < -100)
    ensures r.Err? ==> r.error == IndexError
  {
    var n := s.nSplits;
    var i := PercentileIndex(n, p);
    PercentileIndexRange(n, p);
    match PyIndex(s.splitSizes, i)
    case Err(e) => Err(e)
    case Ok(v) => Ok(Prioritize(s, [v as real], eligiblesFirst))
  }

  /** Where the percentile index falls: it wraps around only for `p < 0`, and runs off for `p < -100`. */
  lemma PercentileIndexRange(n: int, p: int)
    ensures n == 0 ==> PercentileIndex(n, p) == -1
    ensures n >= 1 && p >= 0 ==> 0 <= PercentileIndex(n, p) <= n - 1
    ensures n >= 1 && p >= 100 ==> PercentileIndex(n, p) == n - 1
    ensures n >= 1 ==> (-n <= PercentileIndex(n, p) <= n - 1 <==> p >= -100)
  {
    var x := n * p;
    var i := x / 100;
    assert 100 * i <= x < 100 * i + 100;
    if n >= 1 {
      if p >= 0 {
        MulLe(n, 0, p);
      }
      if p >= 100 {
        MulLe(n, 100, p);
      }
      if p >= -100 {
        MulLe(n, -100, p);
      } else {
        MulLe(n, p, -101);
      }
    }
  }

  lemma MulLe(n: int, a: int, b: int)
    requires n >= 0 && a <= b
    ensures n * a <= n * b
  {
    var d := b - a;
    assert n * b == n * a + n * d;
  }

  // ---------------------------------------------------------------------
  // What the keys promise about the ranking
  // ---------------------------------------------------------------------

  /** The solution ranks before every other guess, whatever the rest of the keys say. */
  lemma SolutionFirst(s1: Stats, s2: Stats, p1: seq<real>, p2: seq<real>, eligiblesFirst: bool)
    requires s1.isTheSolution && !s2.isTheSolution
    ensures KeyLess(Prioritize(s1, p1, eligiblesFirst), Prioritize(s2, p2, eligiblesFirst))
  {
    var k1, k2 := Prioritize(s1, p1, eligiblesFirst), Prioritize(s2, p2, eligiblesFirst);
    assert k1[0] == 0.0 && k2[0] == 1.0;
  }

  /** Between guesses tied on being the solution, a useless one ranks after a useful one. */
  lemma UselessLast(s1: Stats, s2: Stats, p1: seq<real>, p2: seq<real>, eligiblesFirst: bool)
    requires s1.isTheSolution == s2.isTheSolution && !s1.isUseless && s2.isUseless
    ensures KeyLess(Prioritize(s1, p1, eligiblesFirst), Prioritize(s2, p2, eligiblesFirst))
  {
    var k1, k2 := Prioritize(s1, p1, eligiblesFirst), Prioritize(s2, p2, eligiblesFirst);
    assert k1[0] == k2[0] && k1[1] == 0.0 && k2[1] == 1.0;
    assert k1[1..][0] == k1[1] && k2[1..][0] == k2[1];
  }

  /** With `eligibles_first`, an eligible guess ranks before a non-eligible one tied on `always_first`. */
  lemma EligiblesFirst(s1: Stats, s2: Stats, p1: seq<real>, p2: seq<real>)
    requires AlwaysFirst(s1) == AlwaysFirst(s2) && s1.isEligible && !s2.isEligible
    ensures KeyLess(Prioritize(s1, p1, true), Prioritize(s2, p2, true))
  {
    var k1, k2 := Prioritize(s1, p1, true), Prioritize(s2, p2, true);
    assert k1[0] == k2[0] && k1[1] == k2[1] && k1[2] == 0.0 && k2[2] == 1.0;
    assert k1[1..][0] == k1[1] && k2[1..][0] == k2[1];
    assert k1[1..][1..][0] == k1[2] && k2[1..][1..][0] == k2[2];
  }

  /** `worst_case_scenario` is `most_splits` with the largest split inserted after the fixed head. */
  lemma WorstCaseInsertsLargest(s: Stats, eligiblesFirst: bool)
    ensures var h := if eligiblesFirst then 3 else 2;
            var m := MostSplits(s, eligiblesFirst);
            WorstCaseScenario(s, eligiblesFirst) == m[..h] + [s.largest as real] + m[h..]
  {
  }

  /** At the 100th percentile the extra key is the largest split: the key of `worst_case_scenario`. */
  lemma Percentile100IsWorstCase(s: Stats, eligiblesFirst: bool)
    requires LargestIsLast(s)
    ensures Percentile(s, 100, eligiblesFirst) == Ok(WorstCaseScenario(s, eligiblesFirst))
  {
    PercentileIndexRange(s.nSplits, 100);
  }

  /** At the 0th percentile the extra key is the smallest split. */
  lemma Percentile0IsSmallest(s: Stats, eligiblesFirst: bool)
    requires Consistent(s)
    ensures Percentile(s, 0, eligiblesFirst) == Ok(Prioritize(s, [s.splitSizes[0] as real], eligiblesFirst))
  {
    PercentileIndexRange(s.nSplits, 0);
  }

  /** For `0 <= p`, the percentile key lies between the smallest and the largest split size. */
  lemma PercentileWithinSplits(s: Stats, p: int, eligiblesFirst: bool)
    requires Consistent(s) && p >= 0
    ensures Percentile(s, p, eligiblesFirst).Ok?
    ensures var k := Percentile(s, p, eligiblesFirst).value;
            var x := k[if eligiblesFirst then 3 else 2];
            s.splitSizes[0] as real <= x <= s.splitSizes[s.nSplits - 1] as real
  {
    var n := s.nSplits;
    PercentileIndexRange(n, p);
    var i := PercentileIndex(n, p);
    assert s.splitSizes[0] <= s.splitSizes[i] <= s.splitSizes[n - 1];
  }
}
