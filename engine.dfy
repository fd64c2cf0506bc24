/**
 * The candidate engine of `model/engine.py`: the answers still possible,
 * the words a player may guess, the grouping of the answers by the mask
 * they draw for a word, and the narrowing of both by observed feedback.
 * `MutableEngine` is the same engine with an in-place `pruned`; here both
 * versions are methods of one class (`Pruned` and `PrunedInPlace`).
 */
module Engines {
  import opened Common
  import opened Collections
  import opened Dicts
  import opened Masks

  /** `Grouping`: each mask with the answers that draw it, in first-seen order. */
  type Grouping = Dict<Mask, seq<Word>>

  /** `for_answer(a, word)` indexes `word` at every position of `a`, so no answer may be longer. */
  predicate Scorable(answers: seq<Word>, word: Word)
  {
    forall a :: a in answers ==> |a| <= |word|
  }

  /** The mask each answer draws for `word`, in answer order. */
  function MasksFor(answers: seq<Word>, word: Word): (ms: seq<Mask>)
    requires Scorable(answers, word)
    ensures |ms| == |answers|
  {
    seq(|answers|, i requires 0 <= i < |answers| => Feedback(answers[i], word))
  }

  /** The grouping `compute_grouping(word)` builds: each answer appended under its mask. */
  function Grouped(answers: seq<Word>, word: Word): (g: Grouping)
    requires Scorable(answers, word)
    ensures Valid(g)
  {
    if answers == [] then Dict([], map[])
    else
      var init, last := answers[..|answers| - 1], answers[|answers| - 1];
      assert forall a :: a in init ==> a in answers;
      AppendAt(Grouped(init, word), Feedback(last, word), last)
  }

  lemma MasksForSnoc(answers: seq<Word>, word: Word, i: nat)
    requires Scorable(answers, word) && i < |answers|
    ensures Scorable(answers[..i], word) && Scorable(answers[..i + 1], word)
    ensures MasksFor(answers[..i + 1], word) == MasksFor(answers[..i], word) + [Feedback(answers[i], word)]
  {
    assert answers[..i + 1] == answers[..i] + [answers[i]];
  }

  /** The grouping is the general group-by of the answers keyed by their masks. */
  lemma {:induction false} GroupedIsGroupBy(answers: seq<Word>, word: Word)
    requires Scorable(answers, word)
    ensures Grouped(answers, word) == GroupBy(answers, MasksFor(answers, word))
  {
    if answers == [] {
      assert GroupBy<Mask, Word>([], []).entries == map[];
    } else {
      var i := |answers| - 1;
      var init, last := answers[..i], answers[i];
      var ms, m := MasksFor(init, word), Feedback(last, word);
      MasksForSnoc(answers, word, i);
      assert answers[..i + 1] == answers == init + [last];
      assert MasksFor(answers, word) == ms + [m];
      assert Grouped(answers, word) == AppendAt(Grouped(init, word), m, last);
      GroupedIsGroupBy(init, word);
      GroupBySnoc(init, ms, last, m);
    }
  }

  /** Every answer sits in the bucket of its own mask. */
  lemma AnswerInOwnBucket(answers: seq<Word>, word: Word, i: nat)
    requires Scorable(answers, word) && i < |answers|
    ensures answers[i] in Bucket(Grouped(answers, word), Feedback(answers[i], word))
  {
    var ms := MasksFor(answers, word);
    GroupedIsGroupBy(answers, word);
    GroupByBuckets(answers, ms);
    assert ms[i] == Feedback(answers[i], word);
  }

  /** A bucket holds only answers that draw its mask. */
  lemma BucketOnlyOwnMask(answers: seq<Word>, word: Word, m: Mask, a: Word)
    requires Scorable(answers, word) && a in Bucket(Grouped(answers, word), m)
    ensures a in answers && Feedback(a, word) == m
  {
    var ms := MasksFor(answers, word);
    GroupedIsGroupBy(answers, word);
    GroupByBucket(answers, ms, m);
    PickMember(answers, ms, m, a);
    var i: nat :| i < |answers| && answers[i] == a && ms[i] == m;
  }

  /** `compute_grouping` files every answer under its own mask. */
  lemma AnswersFiled(answers: seq<Word>, word: Word)
    requires Scorable(answers, word)
    ensures forall a :: a in answers ==> a in Bucket(Grouped(answers, word), Feedback(a, word))
  {
    forall a | a in answers
      ensures a in Bucket(Grouped(answers, word), Feedback(a, word))
    {
      var i :| 0 <= i < |answers| && answers[i] == a;
      AnswerInOwnBucket(answers, word, i);
    }
  }

  /** The keys of the grouping are exactly the masks some answer draws. */
  lemma GroupingKeys(answers: seq<Word>, word: Word, m: Mask)
    requires Scorable(answers, word)
    ensures m in Grouped(answers, word).entries <==> exists a :: a in answers && Feedback(a, word) == m
  {
    var g := Grouped(answers, word);
    if m in g.entries {
      GroupedIsGroupBy(answers, word);
      GroupByBuckets(answers, MasksFor(answers, word));
      var a :| a in g.entries[m];
      BucketOnlyOwnMask(answers, word, m, a);
    }
    if exists a :: a in answers && Feedback(a, word) == m {
      var a :| a in answers && Feedback(a, word) == m;
      var i :| 0 <= i < |answers| && answers[i] == a;
      AnswerInOwnBucket(answers, word, i);
    }
  }

  /**
   * No bucket is empty, each lists its answers in answer order (`Pick`),
   * and the bucket sizes add up to the number of answers.
   */
  lemma GroupingShape(answers: seq<Word>, word: Word)
    requires Scorable(answers, word)
    ensures forall m :: m in Grouped(answers, word).entries ==> Grouped(answers, word).entries[m] != []
    ensures forall m :: Bucket(Grouped(answers, word), m) == Pick(answers, MasksFor(answers, word), m)
    ensures Sum(Sizes(Grouped(answers, word))) == |answers|
  {
    var ms := MasksFor(answers, word);
    GroupedIsGroupBy(answers, word);
    GroupByBuckets(answers, ms);
    GroupBySizes(answers, ms);
    forall m
      ensures Bucket(Grouped(answers, word), m) == Pick(answers, ms, m)
    {
      GroupByBucket(answers, ms, m);
    }
  }

  // ---------------------------------------------------------------------
  // Pruning the answers
  // ---------------------------------------------------------------------

  /** Every instance's guess can score every answer. */
  predicate ScorableAll(answers: seq<Word>, mis: seq<Instance>)
  {
    forall k :: 0 <= k < |mis| ==> Scorable(answers, mis[k].cause)
  }

  /** The bucket `compute_grouping(mi.cause)[mi.mask]` looks up (empty when the key is missing). */
  function BucketOf(answers: seq<Word>, mi: Instance): seq<Word>
    requires Scorable(answers, mi.cause)
  {
    Bucket(Grouped(answers, mi.cause), mi.mask)
  }

  /** An instance's bucket holds exactly the current answers that would have drawn its mask. */
  lemma BucketOfMembers(answers: seq<Word>, mi: Instance, a: Word)
    requires Scorable(answers, mi.cause)
    ensures a in BucketOf(answers, mi) <==> a in answers && Feedback(a, mi.cause) == mi.mask
  {
    if a in BucketOf(answers, mi) {
      BucketOnlyOwnMask(answers, mi.cause, mi.mask, a);
    }
    if a in answers && Feedback(a, mi.cause) == mi.mask {
      var i :| 0 <= i < |answers| && answers[i] == a;
      AnswerInOwnBucket(answers, mi.cause, i);
    }
  }

  /** No answer draws the instance's mask, so looking it up raises `KeyError` (see `GroupingKeys`). */
  predicate Unproducible(answers: seq<Word>, mi: Instance)
    requires Scorable(answers, mi.cause)
  {
    forall a :: a in answers ==> Feedback(a, mi.cause) != mi.mask
  }

  /** The buckets of the instances, in order. */
  function BucketsOf(answers: seq<Word>, mis: seq<Instance>): (bs: seq<seq<Word>>)
    requires ScorableAll(answers, mis)
    ensures |bs| == |mis|
  {
    seq(|mis|, k requires 0 <= k < |mis| => BucketOf(answers, mis[k]))
  }

  /** The bucket is the instance's guess alone: that board is solved. */
  predicate SolvedAt(bs: seq<seq<Word>>, mis: seq<Instance>, k: nat)
    requires |bs| == |mis| && k < |mis|
  {
    bs[k] == [mis[k].cause]
  }

  /** The `answers` accumulator of `_prune_answers` after `j` instances with buckets `bs`. */
  function KeptUpTo(bs: seq<seq<Word>>, mis: seq<Instance>, j: nat): set<Word>
    requires |bs| == |mis| && j <= |mis|
  {
    if j == 0 then {}
    else KeptUpTo(bs, mis, j - 1) + (if SolvedAt(bs, mis, j - 1) then {} else Elems(bs[j - 1]))
  }

  /** The `solutions_already_found` accumulator after `j` instances. */
  function FoundUpTo(bs: seq<seq<Word>>, mis: seq<Instance>, j: nat): set<Word>
    requires |bs| == |mis| && j <= |mis|
  {
    if j == 0 then {}
    else FoundUpTo(bs, mis, j - 1) + (if SolvedAt(bs, mis, j - 1) then {mis[j - 1].cause} else {})
  }

  /** What `_prune_answers` returns or raises. */
  function Prune(answers: seq<Word>, mis: seq<Instance>): Result<set<Word>>
    requires ScorableAll(answers, mis)
  {
    if exists k :: 0 <= k < |mis| && Unproducible(answers, mis[k]) then Err(KeyError)
    else
      var bs := BucketsOf(answers, mis);
      Ok(KeptUpTo(bs, mis, |mis|) - FoundUpTo(bs, mis, |mis|))
  }

  lemma {:induction false} KeptMembers(bs: seq<seq<Word>>, mis: seq<Instance>, j: nat, a: Word)
    requires |bs| == |mis| && j <= |mis|
    ensures a in KeptUpTo(bs, mis, j) <==> exists k :: 0 <= k < j && !SolvedAt(bs, mis, k) && a in bs[k]
  {
    if j > 0 {
      KeptMembers(bs, mis, j - 1, a);
    }
  }

  lemma {:induction false} FoundMembers(bs: seq<seq<Word>>, mis: seq<Instance>, j: nat, a: Word)
    requires |bs| == |mis| && j <= |mis|
    ensures a in FoundUpTo(bs, mis, j) <==> exists k :: 0 <= k < j && SolvedAt(bs, mis, k) && a == mis[k].cause
  {
    if j > 0 {
      FoundMembers(bs, mis, j - 1, a);
    }
  }

  /**
   * The pruned answers are the current answers that some unsolved instance
   * allows, less the guess of every instance whose bucket is that guess
   * alone, even where another instance's bucket holds it.
   */
  lemma PruneMembers(answers: seq<Word>, mis: seq<Instance>, a: Word)
    requires ScorableAll(answers, mis) && Prune(answers, mis).Ok?
    ensures a in Prune(answers, mis).value <==>
      && a in answers
      && (exists k :: 0 <= k < |mis| && !SolvedAt(BucketsOf(answers, mis), mis, k) && Feedback(a, mis[k].cause) == mis[k].mask)
      && (forall k :: 0 <= k < |mis| && SolvedAt(BucketsOf(answers, mis), mis, k) ==> a != mis[k].cause)
  {
    var bs := BucketsOf(answers, mis);
    KeptMembers(bs, mis, |mis|, a);
    FoundMembers(bs, mis, |mis|, a);
    forall k | 0 <= k < |mis|
      ensures a in bs[k] <==> a in answers && Feedback(a, mis[k].cause) == mis[k].mask
    {
      BucketOfMembers(answers, mis[k], a);
    }
  }

  /**
   * Pruning fails, and only ever with `KeyError`, exactly when some
   * instance's mask is drawn by none of the current answers; an impossible
   * mask does not yield an empty answer set.
   */
  lemma PruneKeyError(answers: seq<Word>, mis: seq<Instance>)
    requires ScorableAll(answers, mis)
    ensures Prune(answers, mis).Err? ==> Prune(answers, mis).error == KeyError
    ensures Prune(answers, mis).Err? <==>
      exists k :: 0 <= k < |mis| && forall a :: a in answers ==> Feedback(a, mis[k].cause) != mis[k].mask
  {
  }

  /** The pruned answers are among the current ones. */
  lemma PruneSubset(answers: seq<Word>, mis: seq<Instance>)
    requires ScorableAll(answers, mis) && Prune(answers, mis).Ok?
    ensures Prune(answers, mis).value <= Elems(answers)
  {
    forall a | a in Prune(answers, mis).value
      ensures a in answers
    {
      PruneMembers(answers, mis, a);
    }
  }

  // ---------------------------------------------------------------------
  // The hard-mode word filter
  // ---------------------------------------------------------------------

  /** `matches` can check `w` against every instance. */
  predicate Checkable(mis: seq<Instance>, w: Word)
  {
    forall k :: 0 <= k < |mis| ==> |mis[k].cause| <= |w| && |mis[k].cause| <= |mis[k].mask|
  }

  /** `any(mi.matches(w) for mi in mask_instances)`. */
  predicate AnyMatch(mis: seq<Instance>, w: Word)
    requires Checkable(mis, w)
  {
    exists k :: 0 <= k < |mis| && MatchRule(mis[k], w)
  }

  predicate AllCheckable(mis: seq<Instance>, words: seq<Word>)
  {
    forall w :: w in words ==> Checkable(mis, w)
  }

  /** The hard-mode word list: the words some instance accepts, in order. */
  function HardWords(words: seq<Word>, mis: seq<Instance>): (r: seq<Word>)
    requires AllCheckable(mis, words)
    ensures |r| <= |words|
  {
    if words == [] then []
    else
      var last := words[|words| - 1];
      HardWords(words[..|words| - 1], mis) + (if AnyMatch(mis, last) then [last] else [])
  }

  /** The filter keeps exactly the words that at least one instance (not every instance) accepts. */
  lemma {:induction false} HardWordsMembers(words: seq<Word>, mis: seq<Instance>, w: Word)
    requires AllCheckable(mis, words)
    ensures w in HardWords(words, mis) <==> w in words && AnyMatch(mis, w)
  {
    if words != [] {
      var init := words[..|words| - 1];
      HardWordsMembers(init, mis, w);
      assert words == init + [words[|words| - 1]];
    }
  }

  /** The filter keeps order: filtering a concatenation filters each part. */
  lemma {:induction false} HardWordsAppend(a: seq<Word>, b: seq<Word>, mis: seq<Instance>)
    requires AllCheckable(mis, a + b)
    ensures AllCheckable(mis, a) && AllCheckable(mis, b)
    ensures HardWords(a + b, mis) == HardWords(a, mis) + HardWords(b, mis)
  {
    assert forall w :: w in a ==> w in a + b;
    assert forall w :: w in b ==> w in a + b;
    if b == [] {
      assert a + b == a;
    } else {
      var init, last := b[..|b| - 1], b[|b| - 1];
      assert a + b == (a + init) + [last];
      assert (a + b)[..|a + b| - 1] == a + init;
      assert forall w :: w in a + init ==> w in a + b;
      HardWordsAppend(a, init, mis);
      assert HardWords(b, mis) == HardWords(init, mis) + (if AnyMatch(mis, last) then [last] else []);
    }
  }

  /** With no instance, `any` is false for every word: hard-mode pruning then empties the word list. */
  lemma {:induction false} HardWordsNoInstances(words: seq<Word>)
    ensures HardWords(words, []) == []
  {
    if words != [] {
      HardWordsNoInstances(words[..|words| - 1]);
    }
  }

  /** `any(mi.matches(w) for mi in mask_instances)`, which stops at the first match. */
  method AnyMatches(mis: seq<Instance>, w: Word) returns (ok: bool)
    requires Checkable(mis, w)
    ensures ok == AnyMatch(mis, w)
  {
    for k := 0 to |mis|
      invariant forall i :: 0 <= i < k ==> !MatchRule(mis[i], w)
    {
      var m := Matches(mis[k], w);
      if m {
        return true;
      }
    }
    return false;
  }

  /** `[pw for pw in words if any(mi.matches(pw) for mi in mask_instances)]`. */
  method FilterWords(words: seq<Word>, mis: seq<Instance>) returns (kept: seq<Word>)
    requires AllCheckable(mis, words)
    ensures kept == HardWords(words, mis)
  {
    kept := [];
    for i := 0 to |words|
      invariant AllCheckable(mis, words[..i])
      invariant kept == HardWords(words[..i], mis)
    {
      assert words[..i + 1][..i] == words[..i];
      var ok := AnyMatches(mis, words[i]);
      if ok {
        kept := kept + [words[i]];
      }
    }
    assert words[..|words|] == words;
  }

  /** Lists a set once each, in an order the model leaves open (Python's set iteration order). */
  method Enumerate(s: set<Word>) returns (q: seq<Word>)
    ensures Distinct(q) && Elems(q) == s
  {
    q := [];
    var rest := s;
    while rest != {}
      invariant Distinct(q) && Elems(q) + rest == s && Elems(q) !! rest
      decreases |rest|
    {
      var x :| x in rest;
      q := q + [x];
      rest := rest - {x};
    }
  }

  // ---------------------------------------------------------------------
  // The game identity
  // ---------------------------------------------------------------------

  /** `sep.join(xs)`. */
  function Join(sep: string, xs: seq<string>): string
  {
    if xs == [] then "" else if |xs| == 1 then xs[0] else xs[0] + sep + Join(sep, xs[1..])
  }

  /**
   * `game_id`: the digest of the sorted words followed by the sorted
   * answers, each joined by newlines; `digest` stands for md5.
   */
  function GameIdOf(words: seq<Word>, answers: seq<Word>, digest: string -> string): string
  {
    digest(Join("\n", SortBy(words, StrLe)) + Join("\n", SortBy(answers, StrLe)))
  }

  /** The game identity does not depend on the order of the words or of the answers. */
  lemma GameIdOrderFree(w1: seq<Word>, w2: seq<Word>, a1: seq<Word>, a2: seq<Word>, digest: string -> string)
    requires multiset(w1) == multiset(w2) && multiset(a1) == multiset(a2)
    ensures GameIdOf(w1, a1, digest) == GameIdOf(w2, a2, digest)
  {
    StrLeIsTotalOrder();
    SortByCanonical(w1, w2, StrLe);
    SortByCanonical(a1, a2, StrLe);
  }

  // ---------------------------------------------------------------------
  // The loops of `compute_grouping` and `_prune_answers`
  // ---------------------------------------------------------------------

  /** The loop of `compute_grouping`: one `setdefault`/`append` per answer. */
  method GroupAnswers(answers: seq<Word>, word: Word) returns (groups: Grouping)
    requires Scorable(answers, word)
    ensures groups == Grouped(answers, word)
  {
    groups := Dict([], map[]);
    for i := 0 to |answers|
      invariant Scorable(answers[..i], word)
      invariant groups == Grouped(answers[..i], word)
    {
      var answer := answers[i];
      var resp := ForAnswer(answer, word);
      assert answers[..i + 1][..i] == answers[..i];
      SetDefaultAppend(groups, resp, answer);
      groups := SetDefault(groups, resp, []);
      groups := Put(groups, resp, groups.entries[resp] + [answer]);
    }
    assert answers[..|answers|] == answers;
  }

  /** `compute_grouping(mi.cause)[mi.mask]`, with `None` for the `KeyError`. */
  method LookUp(answers: seq<Word>, mi: Instance) returns (o: Option<seq<Word>>)
    requires Scorable(answers, mi.cause)
    ensures o.None? <==> Unproducible(answers, mi)
    ensures o.Some? ==> o.value == BucketOf(answers, mi)
  {
    var groups := GroupAnswers(answers, mi.cause);
    GroupingKeys(answers, mi.cause, mi.mask);
    if mi.mask !in groups.entries {
      return None;
    }
    return Some(groups.entries[mi.mask]);
  }

  lemma PruneErr(answers: seq<Word>, mis: seq<Instance>, j: nat)
    requires ScorableAll(answers, mis) && j < |mis| && Unproducible(answers, mis[j])
    ensures Prune(answers, mis) == Err(KeyError)
  {
  }

  /** Every one of the first `j` instances has its mask drawn by some answer. */
  predicate AllProducibleUpTo(answers: seq<Word>, mis: seq<Instance>, j: nat)
    requires ScorableAll(answers, mis) && j <= |mis|
  {
    forall k :: 0 <= k < j ==> !Unproducible(answers, mis[k])
  }

  /**
   * `bs` lists the buckets of the instances. The fact is only brought to
   * bear where a bucket is named, which keeps the loop below cheap.
   */
  predicate Listed(answers: seq<Word>, mis: seq<Instance>, bs: seq<seq<Word>>)
    requires ScorableAll(answers, mis)
  {
    |bs| == |mis| && forall k {:trigger BucketOf(answers, mis[k])} :: 0 <= k < |mis| ==> bs[k] == BucketOf(answers, mis[k])
  }

  lemma ListBuckets(answers: seq<Word>, mis: seq<Instance>) returns (bs: seq<seq<Word>>)
    requires ScorableAll(answers, mis)
    ensures Listed(answers, mis, bs)
  {
    bs := BucketsOf(answers, mis);
    forall k | 0 <= k < |mis|
      ensures bs[k] == BucketOf(answers, mis[k])
    {
    }
  }

  lemma PruneOk(answers: seq<Word>, mis: seq<Instance>, bs: seq<seq<Word>>)
    requires ScorableAll(answers, mis) && Listed(answers, mis, bs)
    requires AllProducibleUpTo(answers, mis, |mis|)
    ensures Prune(answers, mis) == Ok(KeptUpTo(bs, mis, |mis|) - FoundUpTo(bs, mis, |mis|))
  {
    var all := BucketsOf(answers, mis);
    forall k | 0 <= k < |mis|
      ensures bs[k] == all[k]
    {
      assert all[k] == BucketOf(answers, mis[k]);
    }
    assert bs == all;
  }

  /** One instance's contribution to the two accumulators: its bucket, or its guess when that is all the bucket holds. */
  method Absorb(ghost bs: seq<seq<Word>>, mis: seq<Instance>, j: nat, these: seq<Word>, kept: set<Word>, found: set<Word>)
    returns (kept': set<Word>, found': set<Word>)
    requires |bs| == |mis| && j < |mis| && these == bs[j]
    requires kept == KeptUpTo(bs, mis, j) && found == FoundUpTo(bs, mis, j)
    ensures kept' == KeptUpTo(bs, mis, j + 1) && found' == FoundUpTo(bs, mis, j + 1)
  {
    if |these| == 1 && mis[j].cause in these {
      assert these == [mis[j].cause];
      return kept, found + {these[0]};
    }
    return kept + Elems(these), found;
  }

  /** One pass of the loop of `_prune_answers`: look the instance's mask up, then absorb its bucket. */
  method PruneOne(answers: seq<Word>, mis: seq<Instance>, j: nat, ghost bs: seq<seq<Word>>, kept: set<Word>, found: set<Word>)
    returns (raised: bool, kept': set<Word>, found': set<Word>)
    requires ScorableAll(answers, mis) && j < |mis| && Listed(answers, mis, bs)
    requires kept == KeptUpTo(bs, mis, j) && found == FoundUpTo(bs, mis, j) && AllProducibleUpTo(answers, mis, j)
    ensures raised ==> Unproducible(answers, mis[j])
    ensures !raised ==> kept' == KeptUpTo(bs, mis, j + 1) && found' == FoundUpTo(bs, mis, j + 1)
    ensures !raised ==> AllProducibleUpTo(answers, mis, j + 1)
  {
    var looked := LookUp(answers, mis[j]);
    if looked.None? {
      return true, kept, found;
    }
    assert looked.value == bs[j];
    kept', found' := Absorb(bs, mis, j, looked.value, kept, found);
    raised := false;
  }

  /** The loop of `_prune_answers` over the given answers. */
  method PruneAnswersOf(answers: seq<Word>, mis: seq<Instance>) returns (r: Result<set<Word>>)
    requires ScorableAll(answers, mis)
    ensures r == Prune(answers, mis)
  {
    ghost var bs := ListBuckets(answers, mis);
    var kept: set<Word> := {};
    var found: set<Word> := {};
    for j := 0 to |mis|
      invariant kept == KeptUpTo(bs, mis, j)
      invariant found == FoundUpTo(bs, mis, j)
      invariant AllProducibleUpTo(answers, mis, j)
    {
      var raised;
      raised, kept, found := PruneOne(answers, mis, j, bs, kept, found);
      if raised {
        PruneErr(answers, mis, j);
        return Err(KeyError);
      }
    }
    PruneOk(answers, mis, bs);
    return Ok(kept - found);
  }

  // ---------------------------------------------------------------------
  // The engine
  // ---------------------------------------------------------------------

  class Engine {
    var answers: seq<Word>
    var words: seq<Word>
    const hardMode: bool

    /** An engine over the given lists (the file reading is not modelled). */
    constructor (answers: seq<Word>, words: seq<Word>, hardMode: bool)
      ensures this.answers == answers && this.words == words && this.hardMode == hardMode
    {
      this.answers := answers;
      this.words := words;
      this.hardMode := hardMode;
    }

    /** The `words` property. */
    function Words(): set<Word>
      reads this
    {
      Elems(words)
    }

    /** The `eligible_answers` property. */
    function EligibleAnswers(): set<Word>
      reads this
    {
      Elems(answers)
    }

    predicate IsAnswer(guess: Word)
      reads this
      ensures IsAnswer(guess) <==> guess in EligibleAnswers()
    {
      guess in answers
    }

    predicate AcceptableGuess(guess: Word)
      reads this
      ensures AcceptableGuess(guess) <==> guess in Words()
    {
      guess in words
    }

    /** `game_id`. */
    function GameId(digest: string -> string): string
      reads this
    {
      GameIdOf(words, answers, digest)
    }

    /** `compute_grouping`. */
    method ComputeGrouping(word: Word) returns (groups: Grouping)
      requires Scorable(answers, word)
      ensures groups == Grouped(answers, word)
    {
      groups := GroupAnswers(answers, word);
    }

    /** `_prune_answers`. */
    method PruneAnswers(mis: seq<Instance>) returns (r: Result<set<Word>>)
      requires ScorableAll(answers, mis)
      ensures r == Prune(answers, mis)
    {
      r := PruneAnswersOf(answers, mis);
    }

    /** What `pruned` needs: every guess scores every answer, and in hard mode `matches` can check every word. */
    predicate CanPrune(mis: seq<Instance>)
      reads this
    {
      ScorableAll(answers, mis) && (hardMode ==> AllCheckable(mis, words))
    }

    /**
     * `Engine.pruned`: a copy holding the pruned answers and, in hard mode,
     * the filtered words; this engine is left as it was.
     */
    method Pruned(mis: seq<Instance>) returns (r: Result<Engine>)
      requires CanPrune(mis)
      ensures r.Err? <==> Prune(answers, mis).Err?
      ensures r.Err? ==> r.error == KeyError
      ensures r.Ok? ==> && fresh(r.value) && r.value.hardMode == hardMode
                        && Distinct(r.value.answers) && Elems(r.value.answers) == Prune(answers, mis).value
                        && r.value.words == (if hardMode then HardWords(words, mis) else words)
    {
      var copy := new Engine(answers, words, hardMode);
      PruneKeyError(answers, mis);
      var pa := PruneAnswers(mis);
      if pa.Err? {
        return Err(pa.error);
      }
      copy.answers := Enumerate(pa.value);
      if hardMode {
        copy.words := FilterWords(words, mis);
      }
      return Ok(copy);
    }

    /** `MutableEngine.pruned`: the same new answers and words, stored in this engine, which is returned. */
    method PrunedInPlace(mis: seq<Instance>) returns (r: Result<Engine>)
      requires CanPrune(mis)
      modifies this
      ensures r.Err? <==> old(Prune(answers, mis)).Err?
      ensures r.Err? ==> r.error == KeyError && answers == old(answers) && words == old(words)
      ensures r.Ok? ==> && r.value == this
                        && Distinct(answers) && Elems(answers) == old(Prune(answers, mis)).value
                        && words == old(if hardMode then HardWords(words, mis) else words)
    {
      PruneKeyError(answers, mis);
      var pa := PruneAnswers(mis);
      if pa.Err? {
        return Err(pa.error);
      }
      answers := Enumerate(pa.value);
      if hardMode {
        words := FilterWords(words, mis);
      }
      return Ok(this);
    }
  }
}
