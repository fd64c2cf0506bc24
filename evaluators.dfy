/**
 * `evaluators.py`: the side of the game that answers guesses. The
 * known-answer evaluator scores a guess against every answer it still
 * holds and drops an answer once it is found; the input evaluator only
 * counts how many masks it still has to read (reading them from the
 * terminal is not part of this model). Both keep a list of visitors,
 * which is created on the first `add_visitor`.
 *
 * Python's subclassing is modelled by composition: each evaluator owns an
 * `Evaluator` object holding the visitor list.
 */
module Evaluators {
  import opened Common
  import opened Collections
  import opened Masks
  import opened Engines

  /**
   * A visitor of `visitors.py`, known here only by its identity: what it
   * does with a visit (printing) is not part of this model.
   */
  type Visitor = nat

  /** One call `visitor.visit(guess, mask)`. */
  datatype Visit = Visit(visitor: Visitor, guess: Word, mask: Mask)

  // ---------------------------------------------------------------------
  // Scoring a guess against the known answers
  // ---------------------------------------------------------------------

  /** `[MaskInstance.for_answer(answer, guess) for answer in answers]`. */
  function Evaluations(answers: seq<Word>, guess: Word): (mis: seq<Instance>)
    requires Scorable(answers, guess)
    ensures |mis| == |answers|
    ensures forall i :: 0 <= i < |answers| ==> mis[i].cause == guess && mis[i].mask == Feedback(answers[i], guess)
  {
    seq(|answers|, i requires 0 <= i < |answers| => InstanceFor(answers[i], guess))
  }

  /** Every answer has the guess's length, as in a game of fixed word length. */
  predicate SameLength(answers: seq<Word>, guess: Word)
  {
    forall a :: a in answers ==> |a| == |guess|
  }

  /** Scoring one more answer appends its instance. */
  lemma EvaluationsSnoc(answers: seq<Word>, guess: Word, i: nat)
    requires Scorable(answers, guess) && i < |answers|
    ensures Scorable(answers[..i], guess) && Scorable(answers[..i + 1], guess)
    ensures Evaluations(answers[..i + 1], guess) == Evaluations(answers[..i], guess) + [Instance(Feedback(answers[i], guess), guess)]
  {
    assert answers[..i + 1] == answers[..i] + [answers[i]];
  }

  /** Scoring a list with one answer taken out takes that answer's instance out. */
  lemma EvaluationsRemove(answers: seq<Word>, guess: Word, i: nat)
    requires Scorable(answers, guess) && i < |answers|
    ensures Scorable(answers[..i] + answers[i + 1..], guess)
    ensures var before := Evaluations(answers, guess);
            Evaluations(answers[..i] + answers[i + 1..], guess) == before[..i] + before[i + 1..]
  {
    var rest := answers[..i] + answers[i + 1..];
    assert forall a :: a in rest ==> a in answers;
    var before := Evaluations(answers, guess);
    var after := Evaluations(rest, guess);
    var spliced := before[..i] + before[i + 1..];
    assert |after| == |spliced|;
    forall k | 0 <= k < |after| ensures after[k] == spliced[k] {
      if k < i {
        assert rest[k] == answers[k] && spliced[k] == before[k];
      } else {
        assert rest[k] == answers[k + 1] && spliced[k] == before[k + 1];
      }
    }
    assert after == spliced;
  }

  /** An instance comes back solved exactly when its answer is the guess. */
  lemma EvaluationSolvedIff(answers: seq<Word>, guess: Word, i: nat)
    requires SameLength(answers, guess) && i < |answers|
    ensures Scorable(answers, guess)
    ensures Solved(Evaluations(answers, guess)[i].mask) <==> answers[i] == guess
  {
    assert answers[i] in answers;
    SolvedIff(answers[i], guess);
    assert guess[..|answers[i]|] == guess;
  }

  /** How many instances come back solved. */
  function SolvedCount(mis: seq<Instance>): nat
  {
    if mis == [] then 0 else SolvedCount(mis[..|mis| - 1]) + (if Solved(mis[|mis| - 1].mask) then 1 else 0)
  }

  /** Counting the solved instances counts the answers they were solved for. */
  lemma {:induction false} SolvedCountCounts(answers: seq<Word>, guess: Word, mis: seq<Instance>)
    requires |mis| == |answers|
    requires forall i :: 0 <= i < |mis| ==> (Solved(mis[i].mask) <==> answers[i] == guess)
    ensures SolvedCount(mis) == multiset(answers)[guess]
  {
    if answers != [] {
      var n := |answers| - 1;
      assert answers == answers[..n] + [answers[n]];
      SolvedCountCounts(answers[..n], guess, mis[..n]);
    }
  }

  /** As many instances come back solved as the answer list holds copies of the guess. */
  lemma SolvedCountIsCopies(answers: seq<Word>, guess: Word)
    requires SameLength(answers, guess)
    ensures Scorable(answers, guess)
    ensures SolvedCount(Evaluations(answers, guess)) == multiset(answers)[guess]
  {
    forall i | 0 <= i < |answers|
      ensures Solved(Evaluations(answers, guess)[i].mask) <==> answers[i] == guess
    {
      EvaluationSolvedIff(answers, guess, i);
    }
    SolvedCountCounts(answers, guess, Evaluations(answers, guess));
  }

  /**
   * After `answer_found(guess)` the next evaluation has one solved
   * instance fewer, and the instances of the other answers are unchanged
   * and in order.
   */
  lemma FoundAnswerEvaluations(answers: seq<Word>, guess: Word)
    requires SameLength(answers, guess) && guess in answers
    ensures Scorable(answers, guess) && Scorable(RemoveFirst(answers, guess), guess)
    ensures var i := IndexOf(answers, guess);
            var before := Evaluations(answers, guess);
            Evaluations(RemoveFirst(answers, guess), guess) == before[..i] + before[i + 1..]
    ensures SolvedCount(Evaluations(RemoveFirst(answers, guess), guess)) + 1 == SolvedCount(Evaluations(answers, guess))
  {
    var rest := RemoveFirst(answers, guess);
    var i := IndexOf(answers, guess);
    assert rest == answers[..i] + answers[i + 1..];
    assert forall a :: a in rest ==> a in answers;
    EvaluationsRemove(answers, guess, i);
    SolvedCountIsCopies(answers, guess);
    SolvedCountIsCopies(rest, guess);
  }

  /** The calls one visitor receives: one per instance, in order. */
  function Round(v: Visitor, guess: Word, mis: seq<Instance>): (r: seq<Visit>)
    ensures |r| == |mis|
  {
    seq(|mis|, j requires 0 <= j < |mis| => Visit(v, guess, mis[j].mask))
  }

  /** The calls of the two nested loops of `evaluate`: visitor by visitor, instance by instance. */
  function Visits(vs: seq<Visitor>, guess: Word, mis: seq<Instance>): (r: seq<Visit>)
  {
    if vs == [] then [] else Visits(vs[..|vs| - 1], guess, mis) + Round(vs[|vs| - 1], guess, mis)
  }

  /** Visitor `i` sees instance `j` in call `i·|mis| + j`, and there are no other calls. */
  lemma {:induction false} VisitAt(vs: seq<Visitor>, guess: Word, mis: seq<Instance>, i: nat, j: nat)
    requires i < |vs| && j < |mis|
    ensures |Visits(vs, guess, mis)| == |vs| * |mis|
    ensures i * |mis| + j < |vs| * |mis|
    ensures Visits(vs, guess, mis)[i * |mis| + j] == Visit(vs[i], guess, mis[j].mask)
  {
    var n := |vs| - 1;
    var init := vs[..n];
    VisitsLength(init, guess, mis);
    assert |vs| * |mis| == n * |mis| + |mis|;
    if i < n {
      VisitAt(init, guess, mis, i, j);
    } else {
      assert i * |mis| == n * |mis|;
    }
  }

  lemma {:induction false} VisitsLength(vs: seq<Visitor>, guess: Word, mis: seq<Instance>)
    ensures |Visits(vs, guess, mis)| == |vs| * |mis|
  {
    if vs != [] {
      var n := |vs| - 1;
      VisitsLength(vs[..n], guess, mis);
      assert |vs| * |mis| == n * |mis| + |mis|;
    }
  }

  // ---------------------------------------------------------------------
  // The evaluators
  // ---------------------------------------------------------------------

  /** The `Evaluator` base: the visitor list, `None` until the first visitor is added. */
  class Evaluator {
    var visitor: Option<seq<Visitor>>

    constructor()
      ensures visitor == None && Visitors() == []
    {
      visitor := None;
    }

    /** The `_visitors` property: the list, or an empty one when there is none or it is empty. */
    function Visitors(): (vs: seq<Visitor>)
      reads this
      ensures visitor.Some? ==> vs == visitor.value
      ensures visitor.None? ==> vs == []
    {
      if visitor.Some? && visitor.value != [] then visitor.value else []
    }

    /** `add_visitor`: creates the list when needed, then appends. */
    method AddVisitor(v: Visitor)
      modifies this
      ensures visitor == Some(old(Visitors()) + [v])
      ensures Visitors() == old(Visitors()) + [v]
    {
      if visitor.None? {
        visitor := Some([]);
      }
      visitor := Some(visitor.value + [v]);
    }
  }

  /** The nested loops of `evaluate` that show every instance to every visitor. */
  method Notify(vs: seq<Visitor>, guess: Word, mis: seq<Instance>) returns (visits: seq<Visit>)
    ensures visits == Visits(vs, guess, mis)
  {
    visits := [];
    for i := 0 to |vs|
      invariant visits == Visits(vs[..i], guess, mis)
    {
      assert vs[..i + 1][..i] == vs[..i];
      ghost var round := Round(vs[i], guess, mis);
      for j := 0 to |mis|
        invariant visits == Visits(vs[..i], guess, mis) + round[..j]
      {
        assert round[..j + 1] == round[..j] + [Visit(vs[i], guess, mis[j].mask)];
        visits := visits + [Visit(vs[i], guess, mis[j].mask)];
      }
      assert round[..|mis|] == round;
    }
    assert vs[..|vs|] == vs;
  }

  /** `KnownAnswerEvaluator`: evaluates guesses against the answers it was given. */
  class KnownAnswerEvaluator {
    var answers: seq<Word>
    const base: Evaluator

    constructor(answers: seq<Word>)
      ensures this.answers == answers && fresh(base) && base.Visitors() == []
    {
      this.answers := answers;
      base := new Evaluator();
    }

    /**
     * `evaluate`: one instance per answer, in order, each caused by the
     * guess and carrying the answer's mask; every visitor then sees every
     * mask. The answers are left as they are.
     */
    method Evaluate(guess: Word) returns (masks: seq<Instance>, visits: seq<Visit>)
      requires Scorable(answers, guess)
      ensures masks == Evaluations(answers, guess)
      ensures visits == Visits(base.Visitors(), guess, masks)
    {
      masks := [];
      for i := 0 to |answers|
        invariant Scorable(answers[..i], guess) && masks == Evaluations(answers[..i], guess)
      {
        EvaluationsSnoc(answers, guess, i);
        var mask := ForAnswer(answers[i], guess);
        masks := masks + [Instance(mask, guess)];
      }
      assert answers[..|answers|] == answers;
      visits := Notify(base.Visitors(), guess, masks);
    }

    /** `answer_found`: `list.remove`, which raises `ValueError` when the guess is not an answer. */
    method AnswerFound(guess: Word) returns (r: Result<()>)
      modifies this
      ensures r.Err? <==> guess !in old(answers)
      ensures r.Err? ==> r.error == ValueError && answers == old(answers)
      ensures r.Ok? ==> answers == RemoveFirst(old(answers), guess)
    {
      if guess !in answers {
        return Err(ValueError);
      }
      answers := RemoveFirst(answers, guess);
      return Ok(());
    }
  }

  /** `InputEvaluator`: reads `n_masks` masks per guess from the player. */
  class InputEvaluator {
    var nMasks: int
    const base: Evaluator

    constructor(nMasks: int)
      ensures this.nMasks == nMasks && fresh(base) && base.Visitors() == []
    {
      this.nMasks := nMasks;
      base := new Evaluator();
    }

    /** `answer_found`: one board fewer to read a mask for. */
    method AnswerFound(guess: Word)
      modifies this
      ensures nMasks == old(nMasks) - 1
    {
      nMasks := nMasks - 1;
    }
  }
}
