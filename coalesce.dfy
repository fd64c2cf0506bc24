/**
 * The `coalesce` generator, which appears in the same words in
 * `model/guess.py` and `ai/guess.py`. It walks a ranked list of guesses and
 * passes on the ones worth showing: it skips useless guesses and guesses
 * equivalent to the input element just before them, stops after `count`
 * guesses, and with `await_eligible` keeps going until it has seen an
 * eligible guess.
 *
 * The loop only ever asks three things of the guess at position `i`, and
 * the model hands it those answers (`Traits`): whether it is eligible,
 * whether it is useless, and what `guess.equiv(last)` returns, where `last`
 * is always the input element at `i - 1` (`None` at the start). Each guess
 * kind builds the traits from its own statistics and its own `equiv`.
 */
module Coalescing {
  import opened Common

  /** What `coalesce` asks of one guess; `equivPrev` may be an exception. */
  datatype Traits = Traits(eligible: bool, useless: bool, equivPrev: Result<bool>)

  /**
   * What running the generator to its end gives: the positions of the
   * guesses it yielded, in order, and the exception it raised, if any.
   */
  datatype Run = Run(yielded: seq<nat>, raised: Option<Error>)

  /**
   * Traits as both `equiv` methods produce them: `equiv(None)` is False,
   * and an eligible guess is never equivalent to anything.
   */
  predicate Coherent(ts: seq<Traits>)
  {
    && (|ts| > 0 ==> ts[0].equivPrev == Ok(false))
    && forall i :: 0 <= i < |ts| && ts[i].eligible ==> ts[i].equivPrev == Ok(false)
  }

  /** Positions `ys` yielded before the run `r` of the rest. */
  function Then(ys: seq<nat>, r: Run): Run
  {
    Run(ys + r.yielded, r.raised)
  }

  /**
   * The generator from position `i` on, with the current `await_eligible`
   * and `count`. Here `count == None` means "no limit", which is what the
   * default argument evidently intends; `Coalesced` adds what the code as
   * written does with `None`.
   */
  function CoalesceFrom(ts: seq<Traits>, i: nat, await: bool, count: Option<int>): Run
    decreases |ts| - i
  {
    if i >= |ts| then Run([], None)
    else
      var t := ts[i];
      var await' := await && !t.eligible;
      var proceed := count.None? || count.value > 0 || t.eligible;
      match t.equivPrev
      case Err(e) => Run([], Some(e))
      case Ok(equiv) =>
        if !equiv && !t.useless && proceed then
          var count' := if count.None? then None else Some(count.value - 1);
          if count'.Some? && count'.value <= 0 && !await' then Run([i], None)
          else Then([i], CoalesceFrom(ts, i + 1, await', count'))
        else CoalesceFrom(ts, i + 1, await', count)
  }

  /** `coalesce` with `count = None` treated as no limit: the evidently intended generator. */
  function CoalescedIntended(ts: seq<Traits>, await: bool, count: Option<int>): Run
  {
    CoalesceFrom(ts, 0, await, count)
  }

  /**
   * `coalesce` as written: with `count = None`, `count > 0` raises
   * `TypeError` at the first guess; otherwise it is the generator above.
   */
  function Coalesced(ts: seq<Traits>, await: bool, count: Option<int>): Run
  {
    if count.None? && |ts| > 0 then Run([], Some(TypeError))
    else CoalescedIntended(ts, await, count)
  }

  /** The generator loop, consuming the traits one guess at a time. */
  method Coalesce(ts: seq<Traits>, await: bool, count: Option<int>) returns (run: Run)
    ensures run == Coalesced(ts, await, count)
  {
    var yielded: seq<nat> := [];
    var awaiting := await;
    var left := count;
    for i := 0 to |ts|
      invariant left.None? <==> count.None?
      invariant count.None? ==> i == 0 && yielded == []
      invariant count.Some? ==> Then(yielded, CoalesceFrom(ts, i, awaiting, left)) == Coalesced(ts, await, count)
    {
      var t := ts[i];
      ghost var step := CoalesceFrom(ts, i, awaiting, left);
      if t.eligible {
        awaiting := false;
      }
      if left.None? {
        return Run(yielded, Some(TypeError));
      }
      var proceed := left.value > 0 || t.eligible;
      if t.equivPrev.Err? {
        assert step == Run([], Some(t.equivPrev.error));
        assert yielded + [] == yielded;
        return Run(yielded, Some(t.equivPrev.error));
      }
      if !t.equivPrev.value && !t.useless && proceed {
        left := Some(left.value - 1);
        if left.value <= 0 && !awaiting {
          assert step == Run([i], None);
          return Run(yielded + [i], None);
        }
        ghost var rest := CoalesceFrom(ts, i + 1, awaiting, left);
        assert step == Then([i], rest);
        assert yielded + ([i] + rest.yielded) == yielded + [i] + rest.yielded;
        yielded := yielded + [i];
      } else {
        assert step == CoalesceFrom(ts, i + 1, awaiting, left);
      }
    }
    assert yielded + [] == yielded;
    return Run(yielded, None);
  }

  // ---------------------------------------------------------------------
  // What the generator yields
  // ---------------------------------------------------------------------

  /** Positions strictly increasing from `lo`, below `hi`. */
  predicate Increasing(ys: seq<nat>, lo: nat, hi: nat)
  {
    && (forall k :: 0 <= k < |ys| ==> lo <= ys[k] < hi)
    && (forall k, l :: 0 <= k < l < |ys| ==> ys[k] < ys[l])
  }

  /** The guesses yielded form an in-order subsequence of the input. */
  lemma {:induction false} YieldsInOrder(ts: seq<Traits>, i: nat, await: bool, count: Option<int>)
    ensures Increasing(CoalesceFrom(ts, i, await, count).yielded, i, |ts|)
    decreases |ts| - i
  {
    if i < |ts| {
      var t := ts[i];
      var await' := await && !t.eligible;
      if t.equivPrev.Ok? {
        var count' := if count.None? then None else Some(count.value - 1);
        var proceed := count.None? || count.value > 0 || t.eligible;
        if !t.equivPrev.value && !t.useless && proceed {
          if !(count'.Some? && count'.value <= 0 && !await') {
            YieldsInOrder(ts, i + 1, await', count');
            IncreasingCons(i, CoalesceFrom(ts, i + 1, await', count').yielded, |ts|);
          }
        } else {
          YieldsInOrder(ts, i + 1, await', count);
          IncreasingWiden(CoalesceFrom(ts, i + 1, await', count).yielded, i, |ts|);
        }
      }
    }
  }

  lemma IncreasingCons(i: nat, ys: seq<nat>, hi: nat)
    requires i < hi && Increasing(ys, i + 1, hi)
    ensures Increasing([i] + ys, i, hi)
  {
  }

  lemma IncreasingWiden(ys: seq<nat>, i: nat, hi: nat)
    requires Increasing(ys, i + 1, hi)
    ensures Increasing(ys, i, hi)
  {
  }

  /** The guess at position `j` is worth showing: not useless, not equivalent to the one before. */
  predicate WorthShowing(ts: seq<Traits>, j: nat)
  {
    j < |ts| && !ts[j].useless && ts[j].equivPrev == Ok(false)
  }

  predicate AllWorthShowing(ts: seq<Traits>, ys: seq<nat>)
  {
    forall k :: 0 <= k < |ys| ==> WorthShowing(ts, ys[k])
  }

  /** Each guess yielded is worth showing. */
  lemma {:induction false} YieldsWanted(ts: seq<Traits>, i: nat, await: bool, count: Option<int>)
    ensures AllWorthShowing(ts, CoalesceFrom(ts, i, await, count).yielded)
    decreases |ts| - i
  {
    if i < |ts| {
      var t := ts[i];
      var await' := await && !t.eligible;
      if t.equivPrev.Ok? {
        var count' := if count.None? then None else Some(count.value - 1);
        YieldsWanted(ts, i + 1, await', count');
        YieldsWanted(ts, i + 1, await', count);
        assert !t.equivPrev.value && !t.useless ==> WorthShowing(ts, i);
      }
    }
  }

  /** Without `await_eligible`, the generator yields at most `count` guesses (at least one is let through). */
  lemma {:induction false} AtMostCount(ts: seq<Traits>, i: nat, c: int)
    ensures |CoalesceFrom(ts, i, false, Some(c)).yielded| <= if c >= 1 then c else 1
    decreases |ts| - i
  {
    if i < |ts| {
      var t := ts[i];
      if t.equivPrev.Ok? && !t.equivPrev.value && !t.useless && (c > 0 || t.eligible) {
        if c - 1 > 0 {
          AtMostCount(ts, i + 1, c - 1);
        }
      } else {
        AtMostCount(ts, i + 1, c);
      }
    }
  }

  /**
   * With `await_eligible`, the generator does not stop before the first
   * eligible guess, and yields it unless it is useless or an earlier
   * `equiv` raised.
   */
  lemma {:induction false} AwaitsFirstEligible(ts: seq<Traits>, i: nat, count: Option<int>, k: nat)
    requires Coherent(ts) && i <= k < |ts| && ts[k].eligible && !ts[k].useless
    requires forall j :: i <= j < k ==> !ts[j].eligible && ts[j].equivPrev.Ok?
    ensures k in CoalesceFrom(ts, i, true, count).yielded
    decreases k - i
  {
    var t := ts[i];
    if i < k {
      if !t.equivPrev.value && !t.useless && (count.None? || count.value > 0) {
        var count' := if count.None? then None else Some(count.value - 1);
        AwaitsFirstEligible(ts, i + 1, count', k);
      } else {
        AwaitsFirstEligible(ts, i + 1, count, k);
      }
    }
  }

  /** As written, `count = None` raises `TypeError` at the first guess, before anything is yielded. */
  lemma NoneCountRaises(ts: seq<Traits>, await: bool)
    requires |ts| > 0
    ensures Coalesced(ts, await, None) == Run([], Some(TypeError))
  {
  }

  /** Positions of the guesses worth showing from `i` on. */
  function Wanted(ts: seq<Traits>, i: nat): (ys: seq<nat>)
    decreases |ts| - i
  {
    if i >= |ts| then []
    else if WorthShowing(ts, i) then [i] + Wanted(ts, i + 1)
    else Wanted(ts, i + 1)
  }

  /**
   * With no limit, the intended generator yields every guess worth
   * showing, whatever `await_eligible` says, when no `equiv` raises.
   */
  lemma {:induction false} UnlimitedYieldsAllWanted(ts: seq<Traits>, i: nat, await: bool)
    requires forall j :: i <= j < |ts| ==> ts[j].equivPrev.Ok?
    ensures CoalesceFrom(ts, i, await, None) == Run(Wanted(ts, i), None)
    decreases |ts| - i
  {
    if i < |ts| {
      UnlimitedYieldsAllWanted(ts, i + 1, await && !ts[i].eligible);
    }
  }

  /** When no `equiv` raises, neither does the generator. */
  lemma {:induction false} NeverRaises(ts: seq<Traits>, i: nat, await: bool, count: Option<int>)
    requires forall j :: i <= j < |ts| ==> ts[j].equivPrev.Ok?
    ensures CoalesceFrom(ts, i, await, count).raised == None
    decreases |ts| - i
  {
    if i < |ts| {
      var await' := await && !ts[i].eligible;
      NeverRaises(ts, i + 1, await', count);
      NeverRaises(ts, i + 1, await', if count.None? then None else Some(count.value - 1));
    }
  }

  /** Given a count, the code as written and the intended generator agree. */
  lemma CountGivenAgrees(ts: seq<Traits>, await: bool, c: int)
    ensures Coalesced(ts, await, Some(c)) == CoalescedIntended(ts, await, Some(c))
  {
  }
}
