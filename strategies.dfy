/**
 * `strategies.py`: how the computer picks its next guess from a space, a
 * dict from each candidate word to the grouping of the remaining answers
 * it draws. The answers are every word in some bucket of some grouping.
 *
 * - `Strategy` takes the first word with the largest score: the most
 *   buckets, then being an answer, then the smallest worst bucket.
 * - `Greedy` sorts by its own score (buckets of one answer first) and
 *   takes the first answer among the ten best, or the best word.
 * - `Heuristic` ranks the words, shows up to `threshold_for_guessing` of
 *   them skipping neighbours with the same buckets, and guesses the first
 *   answer unless it is not among the first five shown and the best word
 *   has more buckets than the threshold.
 *
 * Python's `sorted(..., key, reverse=True)` computes each key once and
 * sorts stably by descending key; here each entry of the space is paired
 * with its key (`Ranked`) and sorted with `SortBy` and `Desc`.
 */
module Strategies {
  import opened Common
  import opened Collections
  import opened Dicts
  import opened Masks
  import opened Engines

  /** For each candidate word, the grouping of the answers it draws. */
  type Space = Dict<Word, Grouping>

  /** The space and every grouping in it are well-formed dicts. */
  predicate WellFormed(space: Space)
  {
    Valid(space) && forall w :: w in space.entries ==> Valid(space.entries[w])
  }

  /** Every grouping has a bucket; `max` over the buckets of an empty one raises `ValueError`. */
  predicate AllSplit(space: Space)
  {
    forall w :: w in space.entries ==> Len(space.entries[w]) >= 1
  }

  /** `answers`: every word in some bucket of some grouping of the space. */
  function SpaceAnswers(space: Space): set<Word>
  {
    set w, a | w in space.entries && a in Members(space.entries[w]) :: a
  }

  /** `Strategy.wcs`: the size of the largest bucket, the worst case. */
  function Wcs(g: Grouping): (r: int)
    requires Valid(g) && Len(g) >= 1
    ensures r in Sizes(g)
    ensures forall m :: m in g.entries ==> |g.entries[m]| <= r
  {
    var sizes := Sizes(g);
    SizesOfEntries(g);
    MaxInt(sizes)
  }

  // ---------------------------------------------------------------------
  // The three scores
  // ---------------------------------------------------------------------

  /** `Strategy._score`: `(len(grouping), is_answer, -wcs(grouping))`. */
  function Score(g: Grouping, isAnswer: bool): seq<real>
    requires Valid(g) && Len(g) >= 1
  {
    [Len(g) as real, Flag(isAnswer), -(Wcs(g) as real)]
  }

  /** `Greedy._score`: buckets of one answer, buckets, being an answer, minus the worst case. */
  function GreedyScore(g: Grouping, isAnswer: bool): seq<real>
    requires Valid(g) && Len(g) >= 1
  {
    [multiset(Sizes(g))[1] as real, Len(g) as real, Flag(isAnswer), -(Wcs(g) as real)]
  }

  /** `Heuristic.__comparer`: buckets, minus the worst case, being an answer. */
  function Comparer(g: Grouping, isAnswer: bool): seq<real>
    requires Valid(g) && Len(g) >= 1
  {
    [Len(g) as real, -(Wcs(g) as real), Flag(isAnswer)]
  }

  /** Comparing keys whose heads differ: the head decides; otherwise the tails do. */
  lemma KeyLessCons(a: seq<real>, b: seq<real>)
    requires |a| > 0 && |b| > 0
    ensures KeyLess(a, b) <==> a[0] < b[0] || (a[0] == b[0] && KeyLess(a[1..], b[1..]))
  {
  }

  /** The `Strategy` score prefers more buckets, then an answer, then a smaller worst case. */
  lemma ScoreOrder(g: Grouping, a: bool, h: Grouping, b: bool)
    requires Valid(g) && Len(g) >= 1 && Valid(h) && Len(h) >= 1
    ensures KeyLess(Score(g, a), Score(h, b)) <==>
            || Len(g) < Len(h)
            || (Len(g) == Len(h) && !a && b)
            || (Len(g) == Len(h) && a == b && Wcs(h) < Wcs(g))
  {
    var x, y := Score(g, a), Score(h, b);
    KeyLessCons(x, y);
    KeyLessCons(x[1..], y[1..]);
    KeyLessCons(x[1..][1..], y[1..][1..]);
    assert x[1..][1..][1..] == [] && y[1..][1..][1..] == [];
  }

  /**
   * The `Greedy` score prefers more buckets of one answer, then more
   * buckets, then an answer, then a smaller worst case.
   */
  lemma GreedyScoreOrder(g: Grouping, a: bool, h: Grouping, b: bool)
    requires Valid(g) && Len(g) >= 1 && Valid(h) && Len(h) >= 1
    ensures var sg, sh := multiset(Sizes(g))[1], multiset(Sizes(h))[1];
            KeyLess(GreedyScore(g, a), GreedyScore(h, b)) <==>
            || sg < sh
            || (sg == sh && Len(g) < Len(h))
            || (sg == sh && Len(g) == Len(h) && !a && b)
            || (sg == sh && Len(g) == Len(h) && a == b && Wcs(h) < Wcs(g))
  {
    var x, y := GreedyScore(g, a), GreedyScore(h, b);
    KeyLessCons(x, y);
    KeyLessCons(x[1..], y[1..]);
    KeyLessCons(x[1..][1..], y[1..][1..]);
    KeyLessCons(x[1..][1..][1..], y[1..][1..][1..]);
    assert x[1..][1..][1..][1..] == [] && y[1..][1..][1..][1..] == [];
  }

  /** The `Heuristic` key prefers more buckets, then a smaller worst case, then an answer. */
  lemma ComparerOrder(g: Grouping, a: bool, h: Grouping, b: bool)
    requires Valid(g) && Len(g) >= 1 && Valid(h) && Len(h) >= 1
    ensures KeyLess(Comparer(g, a), Comparer(h, b)) <==>
            || Len(g) < Len(h)
            || (Len(g) == Len(h) && Wcs(h) < Wcs(g))
            || (Len(g) == Len(h) && Wcs(g) == Wcs(h) && !a && b)
  {
    var x, y := Comparer(g, a), Comparer(h, b);
    KeyLessCons(x, y);
    KeyLessCons(x[1..], y[1..]);
    KeyLessCons(x[1..][1..], y[1..][1..]);
    assert x[1..][1..][1..] == [] && y[1..][1..][1..] == [];
  }

  // ---------------------------------------------------------------------
  // Ranking the space
  // ---------------------------------------------------------------------

  datatype Scorer = ByStrategy | ByGreedy | ByHeuristic

  function KeyOf(scorer: Scorer, g: Grouping, isAnswer: bool): seq<real>
    requires Valid(g) && Len(g) >= 1
  {
    match scorer
    case ByStrategy => Score(g, isAnswer)
    case ByGreedy => GreedyScore(g, isAnswer)
    case ByHeuristic => Comparer(g, isAnswer)
  }

  /** An item of the space together with its key (the `(word, grouping)` tuple `sorted` and `max` see). */
  datatype Ranked = Ranked(word: Word, grouping: Grouping, key: seq<real>)

  /** `r` is an item of the space carrying its key. */
  predicate Scored(space: Space, scorer: Scorer, r: Ranked)
    requires WellFormed(space) && AllSplit(space)
  {
    && r.word in space.entries
    && r.grouping == space.entries[r.word]
    && r.key == KeyOf(scorer, r.grouping, r.word in SpaceAnswers(space))
  }

  predicate AllScored(space: Space, scorer: Scorer, rs: seq<Ranked>)
    requires WellFormed(space) && AllSplit(space)
  {
    forall i :: 0 <= i < |rs| ==> Scored(space, scorer, rs[i])
  }

  /** `space.items()` with their keys, in the space's order. */
  function Ranking(space: Space, scorer: Scorer): (rs: seq<Ranked>)
    requires WellFormed(space) && AllSplit(space)
    ensures |rs| == Len(space) && AllScored(space, scorer, rs)
    ensures forall i :: 0 <= i < |rs| ==> rs[i].word == space.keys[i]
  {
    var answers := SpaceAnswers(space);
    seq(|space.keys|, i requires 0 <= i < |space.keys| =>
      var w := space.keys[i];
      Ranked(w, space.entries[w], KeyOf(scorer, space.entries[w], w in answers)))
  }

  /** A rearrangement of scored items is scored. */
  lemma ScoredRearranged(space: Space, scorer: Scorer, s: seq<Ranked>, t: seq<Ranked>)
    requires WellFormed(space) && AllSplit(space)
    requires AllScored(space, scorer, s) && multiset(s) == multiset(t)
    ensures AllScored(space, scorer, t)
  {
    forall i | 0 <= i < |t| ensures Scored(space, scorer, t[i]) {
      assert t[i] in multiset(s);
      var j :| 0 <= j < |s| && s[j] == t[i];
    }
  }

  /** Every word of the space is the word of some item of a rearranged ranking. */
  lemma RankedCovers(space: Space, scorer: Scorer, t: seq<Ranked>, w: Word)
    requires WellFormed(space) && AllSplit(space)
    requires multiset(t) == multiset(Ranking(space, scorer)) && w in space.entries
    ensures exists k :: 0 <= k < |t| && t[k].word == w
  {
    var rs := Ranking(space, scorer);
    assert w in Elems(space.keys);
    var i :| 0 <= i < |space.keys| && space.keys[i] == w;
    assert rs[i] in multiset(t);
    var k :| 0 <= k < |t| && t[k] == rs[i];
  }

  /** `sorted(..., reverse=True)`: `a` may precede `b` when its key is not smaller. */
  function Desc(a: Ranked, b: Ranked): bool
  {
    KeyLe(b.key, a.key)
  }

  lemma DescIsTotalPreorder()
    ensures TotalPreorder(Desc)
  {
    KeyOrderFacts();
  }

  /** A key not above one below a third is below the third. */
  lemma KeyLeLess(a: seq<real>, b: seq<real>, c: seq<real>)
    requires KeyLe(a, b) && KeyLess(b, c)
    ensures KeyLess(a, c)
  {
    if a != b {
      KeyOrderFacts();
      LexTransitive(a, b, c, RealLt);
    }
  }

  // ---------------------------------------------------------------------
  // Strategy
  // ---------------------------------------------------------------------

  /**
   * Python's `max(items, key=...)`: the first item whose key no later key
   * exceeds (a later item replaces the current one only with a larger key).
   */
  function FirstMax(rs: seq<Ranked>): (i: nat)
    requires |rs| > 0
    ensures i < |rs|
    ensures forall j :: 0 <= j < |rs| ==> KeyLe(rs[j].key, rs[i].key)
    ensures forall j :: 0 <= j < i ==> KeyLess(rs[j].key, rs[i].key)
  {
    if |rs| == 1 then 0
    else
      var n := |rs| - 1;
      var k := FirstMax(rs[..n]);
      assert forall j :: 0 <= j < n ==> rs[..n][j] == rs[j];
      KeyOrderFacts();
      if KeyLess(rs[k].key, rs[n].key) then
        assert forall j :: 0 <= j < n ==> KeyLess(rs[j].key, rs[n].key) by {
          forall j | 0 <= j < n ensures KeyLess(rs[j].key, rs[n].key) {
            KeyLeLess(rs[j].key, rs[k].key, rs[n].key);
          }
        }
        n
      else k
  }

  /**
   * `Strategy.choose`: the best-scored word; `ValueError` from `max` on an
   * empty space or from `wcs` on a grouping without buckets.
   */
  function StrategyChoose(space: Space): (r: Result<Word>)
    requires WellFormed(space)
    ensures r.Err? <==> Len(space) == 0 || !AllSplit(space)
    ensures r.Err? ==> r.error == ValueError
    ensures r.Ok? ==> r.value in space.entries
  {
    if Len(space) == 0 || !AllSplit(space) then Err(ValueError)
    else
      var rs := Ranking(space, ByStrategy);
      Ok(rs[FirstMax(rs)].word)
  }

  /**
   * The chosen word scores at least as high as every word of the space,
   * and strictly higher than every word listed before it.
   */
  lemma StrategyChoosesBest(space: Space)
    requires WellFormed(space) && AllSplit(space) && Len(space) >= 1
    ensures var w, ans := StrategyChoose(space).value, SpaceAnswers(space);
            forall v :: v in space.entries ==>
              KeyLe(Score(space.entries[v], v in ans), Score(space.entries[w], w in ans))
    ensures var w, ans := StrategyChoose(space).value, SpaceAnswers(space);
            forall j, k :: 0 <= j < k < Len(space) && space.keys[k] == w ==>
              KeyLess(Score(space.entries[space.keys[j]], space.keys[j] in ans), Score(space.entries[w], w in ans))
  {
    var rs, ans := Ranking(space, ByStrategy), SpaceAnswers(space);
    var i := FirstMax(rs);
    var w := rs[i].word;
    assert Scored(space, ByStrategy, rs[i]);
    forall v | v in space.entries
      ensures KeyLe(Score(space.entries[v], v in ans), Score(space.entries[w], w in ans))
    {
      RankedCovers(space, ByStrategy, rs, v);
      var j :| 0 <= j < |rs| && rs[j].word == v;
      assert Scored(space, ByStrategy, rs[j]);
    }
    forall j, k | 0 <= j < k < Len(space) && space.keys[k] == w
      ensures KeyLess(Score(space.entries[space.keys[j]], space.keys[j] in ans), Score(space.entries[w], w in ans))
    {
      assert space.keys[i] == w;
      assert k == i;
      assert Scored(space, ByStrategy, rs[j]);
    }
  }

  // ---------------------------------------------------------------------
  // Greedy
  // ---------------------------------------------------------------------

  /** The first item whose word is an answer (`next(filter(...))`). */
  function FirstAnswer(rs: seq<Ranked>, answers: set<Word>): (r: Option<nat>)
    ensures r.Some? ==> r.value < |rs| && rs[r.value].word in answers
    ensures r.Some? ==> forall j :: 0 <= j < r.value ==> rs[j].word !in answers
    ensures r.None? ==> forall j :: 0 <= j < |rs| ==> rs[j].word !in answers
  {
    if rs == [] then None
    else if rs[0].word in answers then Some(0)
    else
      match FirstAnswer(rs[1..], answers)
      case None => None
      case Some(k) => Some(k + 1)
  }

  /** The space by descending `Greedy` score, ties in the space's order. */
  function GreedySorted(space: Space): seq<Ranked>
    requires WellFormed(space) && AllSplit(space)
  {
    SortBy(Ranking(space, ByGreedy), Desc)
  }

  /** `top10`: the first ten of the sorted space. */
  function TopTen(space: Space): (top: seq<Ranked>)
    requires WellFormed(space) && AllSplit(space)
  {
    var sorted := GreedySorted(space);
    sorted[..if |sorted| < 10 then |sorted| else 10]
  }

  /**
   * `Greedy.choose`: `(answers among top10 + top10)[0]`, the first answer
   * of the ten best, else the best. `ValueError` from a grouping without
   * buckets (keys are computed first); `IndexError` on an empty space.
   */
  function GreedyChoose(space: Space): (r: Result<Word>)
    requires WellFormed(space)
    ensures !AllSplit(space) ==> r == Err(ValueError)
    ensures AllSplit(space) ==> (r.Err? <==> Len(space) == 0) && (r.Err? ==> r.error == IndexError)
    ensures r.Ok? ==> r.value in space.entries
  {
    if !AllSplit(space) then Err(ValueError)
    else
      var top := TopTen(space);
      ScoredRearranged(space, ByGreedy, Ranking(space, ByGreedy), GreedySorted(space));
      match FirstAnswer(top, SpaceAnswers(space))
      case Some(k) => Ok(top[k].word)
      case None => if top == [] then Err(IndexError) else Ok(top[0].word)
  }

  /**
   * The ten kept are the best: in descending order, and none of the rest
   * scores higher than any of them.
   */
  lemma TopTenAreBest(space: Space)
    requires WellFormed(space) && AllSplit(space)
    ensures var sorted, top := GreedySorted(space), TopTen(space);
            && multiset(sorted) == multiset(Ranking(space, ByGreedy))
            && |top| == (if Len(space) < 10 then Len(space) else 10)
            && (forall i, j :: 0 <= i < j < |top| ==> KeyLe(top[j].key, top[i].key))
            && (forall i, j :: 0 <= i < |top| <= j < |sorted| ==> KeyLe(sorted[j].key, top[i].key))
  {
    var sorted, top := GreedySorted(space), TopTen(space);
    SortedDescending(Ranking(space, ByGreedy));
    DescendingPrefix(sorted, top);
  }

  /** Sorting ranked items with `Desc` puts them in descending key order. */
  lemma SortedDescending(rs: seq<Ranked>)
    ensures SortedBy(SortBy(rs, Desc), Desc)
  {
    DescIsTotalPreorder();
    SortBySorted(rs, Desc);
  }

  /** In a descending sequence, a prefix is descending and no later item is above any item of it. */
  lemma DescendingPrefix(sorted: seq<Ranked>, top: seq<Ranked>)
    requires SortedBy(sorted, Desc) && |top| <= |sorted| && top == sorted[..|top|]
    ensures forall i, j :: 0 <= i < j < |top| ==> KeyLe(top[j].key, top[i].key)
    ensures forall i, j :: 0 <= i < |top| <= j < |sorted| ==> KeyLe(sorted[j].key, top[i].key)
  {
    forall i, j | 0 <= i < j < |top| ensures KeyLe(top[j].key, top[i].key) {
      assert Desc(sorted[i], sorted[j]);
    }
    forall i, j | 0 <= i < |top| <= j < |sorted| ensures KeyLe(sorted[j].key, top[i].key) {
      assert Desc(sorted[i], sorted[j]);
    }
  }

  /**
   * The word chosen is the first answer among the ten best, or the best
   * word when none of them is an answer.
   */
  lemma GreedyPicksFirstAnswer(space: Space)
    requires WellFormed(space) && AllSplit(space) && Len(space) >= 1
    ensures var top, ans := TopTen(space), SpaceAnswers(space);
            && |top| >= 1
            && ((forall k :: 0 <= k < |top| ==> top[k].word !in ans) ==> GreedyChoose(space) == Ok(top[0].word))
            && (forall k :: 0 <= k < |top| && top[k].word in ans && (forall j :: 0 <= j < k ==> top[j].word !in ans)
                  ==> GreedyChoose(space) == Ok(top[k].word))
  {
    var top, ans := TopTen(space), SpaceAnswers(space);
    var f := FirstAnswer(top, ans);
    forall k | 0 <= k < |top| && top[k].word in ans && (forall j :: 0 <= j < k ==> top[j].word !in ans)
      ensures GreedyChoose(space) == Ok(top[k].word)
    {
      assert f.Some?;
      assert f.value == k;
    }
  }

  // ---------------------------------------------------------------------
  // Heuristic
  // ---------------------------------------------------------------------

  predicate AllValid(rs: seq<Ranked>)
  {
    forall i :: 0 <= i < |rs| ==> Valid(rs[i].grouping)
  }

  /**
   * `gen_best` shows the item at `j` when its bucket list differs from
   * that of the item before it (`last`, `None` at the start), or when its
   * word is an answer.
   */
  predicate Distinctive(best: seq<Ranked>, answers: set<Word>, j: nat)
    requires AllValid(best) && j < |best|
  {
    j == 0 || Values(best[j].grouping) != Values(best[j - 1].grouping) || best[j].word in answers
  }

  /** Positions from `i` on that `gen_best` would show with no limit. */
  function Distinctives(best: seq<Ranked>, answers: set<Word>, i: nat): (ps: seq<nat>)
    requires AllValid(best)
    ensures forall k :: 0 <= k < |ps| ==> i <= ps[k] < |best| && Distinctive(best, answers, ps[k])
    ensures forall k, l :: 0 <= k < l < |ps| ==> ps[k] < ps[l]
    decreases |best| - i
  {
    if i >= |best| then []
    else if Distinctive(best, answers, i) then [i] + Distinctives(best, answers, i + 1)
    else Distinctives(best, answers, i + 1)
  }

  /** Every distinctive position from `i` on is listed. */
  lemma {:induction false} DistinctivesComplete(best: seq<Ranked>, answers: set<Word>, i: nat, j: nat)
    requires AllValid(best) && i <= j < |best| && Distinctive(best, answers, j)
    ensures j in Distinctives(best, answers, i)
    decreases j - i
  {
    if i < j {
      DistinctivesComplete(best, answers, i + 1, j);
    }
  }

  /** `gen_best(best, limit)` from position `i`, having shown `counter` items. */
  function GenBestFrom(best: seq<Ranked>, answers: set<Word>, limit: int, i: nat, counter: int): (ps: seq<nat>)
    requires AllValid(best)
    ensures forall k :: 0 <= k < |ps| ==> i <= ps[k] < |best|
    decreases |best| - i
  {
    if i >= |best| || counter >= limit then []
    else if Distinctive(best, answers, i) then [i] + GenBestFrom(best, answers, limit, i + 1, counter + 1)
    else GenBestFrom(best, answers, limit, i + 1, counter)
  }

  /** The items at the positions `ps`. */
  function Shown(best: seq<Ranked>, ps: seq<nat>): (r: seq<Ranked>)
    requires forall k :: 0 <= k < |ps| ==> ps[k] < |best|
  {
    seq(|ps|, k requires 0 <= k < |ps| => best[ps[k]])
  }

  /**
   * `gen_best` shows exactly the first `limit` distinctive positions (all
   * of them when there are fewer, none when `limit <= 0`).
   */
  lemma {:induction false} GenBestIsFirstDistinctives(best: seq<Ranked>, answers: set<Word>, limit: int, i: nat, counter: int)
    requires AllValid(best)
    ensures var ds, n := Distinctives(best, answers, i), limit - counter;
            GenBestFrom(best, answers, limit, i, counter) == ds[..if n <= 0 then 0 else if n < |ds| then n else |ds|]
    decreases |best| - i
  {
    if i < |best| && counter < limit {
      GenBestIsFirstDistinctives(best, answers, limit, i + 1, counter + 1);
      GenBestIsFirstDistinctives(best, answers, limit, i + 1, counter);
      var ds', n := Distinctives(best, answers, i + 1), limit - counter;
      if Distinctive(best, answers, i) {
        var m := if n - 1 < |ds'| then n - 1 else |ds'|;
        assert ([i] + ds')[..m + 1] == [i] + ds'[..m];
      }
    }
  }

  /** The space by descending `__comparer` key, ties in the space's order. */
  function Best(space: Space): seq<Ranked>
    requires WellFormed(space) && AllSplit(space)
  {
    SortBy(Ranking(space, ByHeuristic), Desc)
  }

  lemma BestFacts(space: Space)
    requires WellFormed(space) && AllSplit(space)
    ensures var best := Best(space);
            && |best| == Len(space)
            && AllScored(space, ByHeuristic, best) && AllValid(best)
            && SortedBy(best, Desc)
  {
    var best := Best(space);
    ScoredRearranged(space, ByHeuristic, Ranking(space, ByHeuristic), best);
    DescIsTotalPreorder();
    SortBySorted(Ranking(space, ByHeuristic), Desc);
  }

  /** `displayed`: what `gen_best(best, threshold)` yields. */
  function Displayed(space: Space, threshold: int): (d: seq<Ranked>)
    requires WellFormed(space) && AllSplit(space)
  {
    var best := Best(space);
    BestFacts(space);
    Shown(best, GenBestFrom(best, SpaceAnswers(space), threshold, 0, 0))
  }

  /**
   * `Heuristic.choose` with threshold `threshold`: the first answer of the
   * ranking, unless it is not among the first five shown and the first
   * shown word has more buckets than the threshold, which is then guessed.
   * `ValueError` from a grouping without buckets, `StopIteration` when no
   * word of the space is an answer, `IndexError` when nothing is shown.
   */
  function HeuristicChoice(space: Space, threshold: int): (r: Result<Word>)
    requires WellFormed(space)
    ensures r.Ok? ==> r.value in space.entries
  {
    if !AllSplit(space) then Err(ValueError)
    else
      var best, displayed := Best(space), Displayed(space, threshold);
      BestFacts(space);
      match FirstAnswer(best, SpaceAnswers(space))
      case None => Err(StopIteration)
      case Some(k) => FinalPick(best[k], displayed, threshold)
  }

  /** The last step of `choose`, once `first_solution` is found. */
  function FinalPick(solution: Ranked, displayed: seq<Ranked>, threshold: int): Result<Word>
  {
    if solution !in displayed[..if |displayed| < 5 then |displayed| else 5] then
      if displayed == [] then Err(IndexError)
      else if Len(displayed[0].grouping) > threshold then Ok(displayed[0].word)
      else Ok(solution.word)
    else Ok(solution.word)
  }

  /** Some word of the space is an answer exactly when some ranked item's is. */
  lemma AnswerRanked(space: Space)
    requires WellFormed(space) && AllSplit(space)
    ensures var best, ans := Best(space), SpaceAnswers(space);
            (exists k :: 0 <= k < |best| && best[k].word in ans) <==> (exists w :: w in space.entries && w in ans)
  {
    var best, ans := Best(space), SpaceAnswers(space);
    BestFacts(space);
    if w :| w in space.entries && w in ans {
      RankedCovers(space, ByHeuristic, best, w);
    }
  }

  /** When something is ranked and `limit > 0`, the first item is shown first. */
  lemma DisplayedStartsWithBest(space: Space, threshold: int)
    requires WellFormed(space) && AllSplit(space) && Len(space) >= 1
    ensures var best, d := Best(space), Displayed(space, threshold);
            (d == [] <==> threshold <= 0) && (d != [] ==> d[0] == best[0])
  {
    var best, ans := Best(space), SpaceAnswers(space);
    BestFacts(space);
    GenBestIsFirstDistinctives(best, ans, threshold, 0, 0);
    DistinctivesComplete(best, ans, 0, 0);
    var ds := Distinctives(best, ans, 0);
    assert ds[0] == 0;
  }

  /**
   * When `choose` raises: `ValueError` for a grouping without buckets,
   * `StopIteration` exactly when no word of the space is an answer, and
   * `IndexError` exactly when an answer exists but the threshold shows
   * nothing.
   */
  lemma HeuristicErrors(space: Space, threshold: int)
    requires WellFormed(space)
    ensures !AllSplit(space) ==> HeuristicChoice(space, threshold) == Err(ValueError)
    ensures AllSplit(space) ==>
              (HeuristicChoice(space, threshold) == Err(StopIteration) <==> forall w :: w in space.entries ==> w !in SpaceAnswers(space))
    ensures AllSplit(space) ==>
              (HeuristicChoice(space, threshold) == Err(IndexError) <==>
               threshold <= 0 && exists w :: w in space.entries && w in SpaceAnswers(space))
  {
    if AllSplit(space) {
      var best, ans := Best(space), SpaceAnswers(space);
      var f := FirstAnswer(best, ans);
      AnswerRanked(space);
      assert f.None? <==> forall w :: w in space.entries ==> w !in ans;
      HeuristicChoiceCases(space, threshold);
      if f.Some? {
        DisplayedStartsWithBest(space, threshold);
      }
    }
  }

  /** `HeuristicChoice` on a space whose groupings all have buckets, case by case. */
  lemma HeuristicChoiceCases(space: Space, threshold: int)
    requires WellFormed(space) && AllSplit(space)
    ensures var best, d, r := Best(space), Displayed(space, threshold), HeuristicChoice(space, threshold);
            var f := FirstAnswer(best, SpaceAnswers(space));
            && (f.None? ==> r == Err(StopIteration))
            && (f.Some? && d == [] ==> r == Err(IndexError))
            && (f.Some? && d != [] ==>
                  r == if best[f.value] !in d[..if |d| < 5 then |d| else 5] && Len(d[0].grouping) > threshold
                       then Ok(d[0].word) else Ok(best[f.value].word))
  {
    var best, d, r := Best(space), Displayed(space, threshold), HeuristicChoice(space, threshold);
    var f := FirstAnswer(best, SpaceAnswers(space));
    if f.None? {
      assert r == Err(StopIteration);
    } else {
      var k := f.value;
      if d == [] {
        assert r == Err(IndexError);
      } else {
        assert r == FinalPick(best[k], d, threshold);
      }
    }
  }

  /**
   * The decision rule of `choose`, stated on the ranking itself: with some
   * answer in the space and a positive threshold, the best-ranked word is
   * guessed exactly when the first-ranked answer is not among the first
   * five shown and that word has more buckets than the threshold;
   * otherwise the first-ranked answer is guessed. A threshold of zero or
   * less shows nothing, and `displayed[0]` raises `IndexError`.
   */
  lemma HeuristicDecision(space: Space, threshold: int)
    requires WellFormed(space) && AllSplit(space)
    requires exists w :: w in space.entries && w in SpaceAnswers(space)
    ensures var best, d, r := Best(space), Displayed(space, threshold), HeuristicChoice(space, threshold);
            var f := FirstAnswer(best, SpaceAnswers(space));
            && f.Some?
            && (threshold <= 0 ==> r == Err(IndexError))
            && (threshold > 0 ==>
                  r == if best[f.value] !in d[..if |d| < 5 then |d| else 5] && Len(best[0].grouping) > threshold
                       then Ok(best[0].word) else Ok(best[f.value].word))
  {
    AnswerRanked(space);
    BestFacts(space);
    HeuristicChoiceCases(space, threshold);
    DisplayedStartsWithBest(space, threshold);
  }

  /**
   * The word guessed is the first answer of the ranking, or else the
   * best-ranked word, and only when it has more buckets than the threshold.
   */
  lemma HeuristicGuess(space: Space, threshold: int)
    requires WellFormed(space) && AllSplit(space) && HeuristicChoice(space, threshold).Ok?
    ensures var best, ans, w := Best(space), SpaceAnswers(space), HeuristicChoice(space, threshold).value;
            var f := FirstAnswer(best, ans);
            && f.Some?
            && (w == best[f.value].word || (w == best[0].word && Len(best[0].grouping) > threshold))
  {
    HeuristicChoiceCases(space, threshold);
    BestFacts(space);
    if Len(space) >= 1 {
      DisplayedStartsWithBest(space, threshold);
    }
  }

  /**
   * `Heuristic`: its threshold, and the answers of the last space it chose
   * in (`self.answers`, unset before the first `choose`).
   */
  class Heuristic {
    const threshold: int
    var answers: Option<set<Word>>

    /** `Heuristic(threshold_for_guessing)`; the default threshold is 5. */
    constructor(threshold: int)
      ensures this.threshold == threshold && answers == None
    {
      this.threshold := threshold;
      answers := None;
    }

    /** The `gen_best` generator, run to its end over `best` with the answers stored by `choose`. */
    method GenBest(best: seq<Ranked>, limit: int) returns (out: seq<Ranked>)
      requires AllValid(best) && answers.Some?
      ensures out == Shown(best, GenBestFrom(best, answers.value, limit, 0, 0))
    {
      var ans := answers.value;
      var counter := 0;
      var last: Option<seq<seq<Word>>> := None;
      ghost var ps: seq<nat> := [];
      out := [];
      var i := 0;
      while i < |best|
        invariant 0 <= i <= |best|
        invariant last == if i == 0 then None else Some(Values(best[i - 1].grouping))
        invariant forall k :: 0 <= k < |ps| ==> ps[k] < i
        invariant out == Shown(best, ps)
        invariant ps + GenBestFrom(best, ans, limit, i, counter) == GenBestFrom(best, ans, limit, 0, 0)
      {
        if counter >= limit {
          return;
        }
        var e := best[i];
        var cur := Values(e.grouping);
        if Some(cur) != last || e.word in ans {
          out := out + [e];
          ps := ps + [i];
          counter := counter + 1;
        }
        last := Some(cur);
        i := i + 1;
      }
    }

    /** `choose(space)`: stores the answers, then picks as `HeuristicChoice` says. */
    method Choose(space: Space) returns (r: Result<Word>)
      requires WellFormed(space)
      modifies this
      ensures answers == Some(SpaceAnswers(space))
      ensures r == HeuristicChoice(space, threshold)
    {
      var ans := SpaceAnswers(space);
      answers := Some(ans);
      if !AllSplit(space) {
        return Err(ValueError);
      }
      var best := Best(space);
      assert AllValid(best) by {
        BestFacts(space);
      }
      var displayed := GenBest(best, threshold);
      assert displayed == Displayed(space, threshold);
      var first := FirstAnswer(best, ans);
      if first.None? {
        return Err(StopIteration);
      }
      var solution := best[first.value];
      assert HeuristicChoice(space, threshold) == FinalPick(solution, displayed, threshold);
      if solution !in displayed[..if |displayed| < 5 then |displayed| else 5] {
        if displayed == [] {
          return Err(IndexError);
        }
        if Len(displayed[0].grouping) > threshold {
          return Ok(displayed[0].word);
        }
      }
      return Ok(solution.word);
    }
  }
}
