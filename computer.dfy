/**
 * `gameplay/computer.py`: the computer player's view of the game. It
 * holds an engine and a memo of the solution space (every allowed word
 * with the grouping of the answers it draws). The memo is filled from the
 * disk cache under the game's identity, or computed and written to the
 * cache; `bust` and `update` clear it.
 *
 * The disk cache is the `Cache` object: what each game's file reads back
 * as. The md5 digest behind the game identity is the `digest` parameter.
 */
module Computers {
  import opened Common
  import opened Collections
  import opened Dicts
  import opened Masks
  import opened Engines
  import opened Strategies
  import opened Data

  /** The cache files, by game identity, as `json.load` reads them. */
  class Cache {
    var files: map<string, Dict<Word, Stored>>

    constructor()
      ensures files == map[]
    {
      files := map[];
    }

    /** Every file is a dict of well-formed groupings (as `save_cache` writes them). */
    predicate Good()
      reads this
    {
      forall id :: id in files ==> Valid(files[id]) && forall w :: w in files[id].entries ==> Valid(files[id].entries[w])
    }
  }

  /**
   * `fetch_cache(game_id)`: nothing when there is no file, else the file
   * decoded by `unjsonify` (which raises `ValueError` on a bad key).
   */
  function Fetch(files: map<string, Dict<Word, Stored>>, id: string): (r: Result<Option<Space>>)
    requires id in files ==> forall w :: w in files[id].entries ==> Valid(files[id].entries[w])
    ensures id !in files ==> r == Ok(None)
    ensures r.Ok? && r.value.Some? && Valid(files[id]) ==> WellFormed(r.value.value)
  {
    if id !in files then Ok(None)
    else
      match Unjsonify(files[id])
      case Ok(s) => Ok(Some(s))
      case Err(e) => Err(e)
  }

  /** A dict is truthy when it has an item. */
  predicate Truthy(s: Space)
  {
    Len(s) > 0
  }

  /** `space` is what `__compute_groups` builds: every allowed word, with the grouping it draws. */
  predicate GroupsOf(space: Space, answers: seq<Word>, words: seq<Word>)
  {
    && WellFormed(space)
    && space.entries.Keys == Elems(words)
    && forall w :: w in space.entries ==> Scorable(answers, w) && space.entries[w] == Grouped(answers, w)
  }

  /**
   * What `__load_groups` does, from the cache files `files0` and the memo
   * `memo0`, to the result `r`, the memo `memo1` and the files `files1`:
   * a truthy cached space is memoised and returned; otherwise the space is
   * computed, memoised, written to the cache and returned.
   */
  ghost predicate LoadSpec(
    files0: map<string, Dict<Word, Stored>>, files1: map<string, Dict<Word, Stored>>,
    memo0: Option<Space>, memo1: Option<Space>, r: Result<Space>,
    id: string, answers: seq<Word>, words: seq<Word>)
    requires id in files0 ==> forall w :: w in files0[id].entries ==> Valid(files0[id].entries[w])
  {
    match Fetch(files0, id)
    case Err(e) => r == Err(e) && memo1 == memo0 && files1 == files0
    case Ok(cached) =>
      if cached.Some? && Truthy(cached.value) then
        r == Ok(cached.value) && memo1 == Some(cached.value) && files1 == files0
      else
        && r.Ok? && GroupsOf(r.value, answers, words)
        && memo1 == Some(r.value)
        && files1 == files0[id := Written(Jsonify(r.value))]
  }

  class Computer {
    var engine: Engine
    const hardMode: bool
    /** `__mem_cache`. */
    var memo: Option<Space>
    const cache: Cache
    const digest: string -> string

    constructor(engine: Engine, hardMode: bool, cache: Cache, digest: string -> string)
      ensures this.engine == engine && this.hardMode == hardMode && memo == None
      ensures this.cache == cache && this.digest == digest
    {
      this.engine := engine;
      this.hardMode := hardMode;
      this.cache := cache;
      this.digest := digest;
      memo := None;
    }

    /** `if self.__mem_cache`: a memo is used only when it is a non-empty space. */
    predicate Memoised()
      reads this
    {
      memo.Some? && Truthy(memo.value)
    }

    /** Every allowed word can score every answer, so the groupings can be computed. */
    predicate Groupable()
      reads this, engine
    {
      forall w :: w in engine.words ==> Scorable(engine.answers, w)
    }

    /** `is_answer`: asks the engine. */
    predicate IsAnswer(word: Word)
      reads this, engine
      ensures IsAnswer(word) <==> word in engine.EligibleAnswers()
    {
      engine.IsAnswer(word)
    }

    /** `__compute_groups`: one `compute_grouping` per word of `engine.words` (a set). */
    method ComputeGroups() returns (computed: Space)
      requires Groupable()
      ensures GroupsOf(computed, engine.answers, engine.words)
    {
      var words := Enumerate(engine.Words());
      computed := Dict([], map[]);
      for i := 0 to |words|
        invariant computed.keys == words[..i] && computed.entries.Keys == Elems(words[..i])
        invariant forall w :: w in computed.entries ==> Scorable(engine.answers, w) && computed.entries[w] == Grouped(engine.answers, w)
      {
        var word := words[i];
        assert word in Elems(words);
        var groups := engine.ComputeGrouping(word);
        assert words[..i + 1] == words[..i] + [word];
        assert word !in words[..i];
        computed := Put(computed, word, groups);
      }
      assert words[..|words|] == words;
    }

    /** `__load_groups`. */
    method LoadGroups() returns (r: Result<Space>)
      requires Groupable() && cache.Good()
      modifies this, cache
      ensures engine == old(engine) && cache.Good()
      ensures LoadSpec(old(cache.files), cache.files, old(memo), memo, r,
                       GameIdOf(engine.words, engine.answers, digest), engine.answers, engine.words)
    {
      var id := engine.GameId(digest);
      var cached := Fetch(cache.files, id);
      if cached.Err? {
        return Err(cached.error);
      }
      if cached.value.Some? && Truthy(cached.value.value) {
        memo := cached.value;
        return Ok(cached.value.value);
      }
      var computed := ComputeGroups();
      memo := Some(computed);
      cache.files := cache.files[id := Written(Jsonify(computed))];
      return Ok(computed);
    }

    /** The `solution_space` property: the memo when truthy, otherwise a fresh load. */
    method SolutionSpace() returns (r: Result<Space>)
      requires Groupable() && cache.Good()
      modifies this, cache
      ensures engine == old(engine) && cache.Good()
      ensures old(Memoised()) ==> r == Ok(old(memo).value) && memo == old(memo) && cache.files == old(cache.files)
      ensures !old(Memoised()) ==>
                LoadSpec(old(cache.files), cache.files, old(memo), memo, r,
                         GameIdOf(engine.words, engine.answers, digest), engine.answers, engine.words)
    {
      if Memoised() {
        return Ok(memo.value);
      }
      r := LoadGroups();
    }

    /** `bust`: forgets the memo. */
    method Bust()
      modifies this
      ensures memo == None && engine == old(engine)
    {
      memo := None;
    }

    /**
     * `update(*mi)`: the engine becomes its pruned copy and the memo is
     * forgotten; when pruning raises `KeyError`, nothing changes.
     */
    method Update(mis: seq<Instance>) returns (r: Result<()>)
      requires engine.CanPrune(mis)
      modifies this
      ensures r.Err? <==> Prune(old(engine.answers), mis).Err?
      ensures r.Err? ==> r.error == KeyError && engine == old(engine) && memo == old(memo)
      ensures r.Ok? ==> && fresh(engine) && memo == None && engine.hardMode == old(engine.hardMode)
                        && Distinct(engine.answers) && Elems(engine.answers) == Prune(old(engine.answers), mis).value
                        && engine.words == (if old(engine.hardMode) then HardWords(old(engine.words), mis) else old(engine.words))
    {
      var pruned := engine.Pruned(mis);
      if pruned.Err? {
        return Err(pruned.error);
      }
      engine := pruned.value;
      memo := None;
      return Ok(());
    }
  }

  /**
   * After an update, the next `solution_space` is a load for the pruned
   * engine: the memo no longer answers for the old one.
   */
  method UpdateThenSolve(c: Computer, mis: seq<Instance>) returns (r: Result<Space>)
    requires c.engine.CanPrune(mis) && c.cache.Good()
    requires forall w :: w in c.engine.words ==> Scorable(c.engine.answers, w)
    modifies c, c.cache
    ensures Prune(old(c.engine.answers), mis).Ok? ==>
              var e := c.engine;
              && Elems(e.answers) == Prune(old(c.engine.answers), mis).value
              && LoadSpec(old(c.cache.files), c.cache.files, None, c.memo, r,
                          GameIdOf(e.words, e.answers, c.digest), e.answers, e.words)
  {
    var u := c.Update(mis);
    if u.Err? {
      return Err(u.error);
    }
    PrunedStillGroupable(old(c.engine.answers), old(c.engine.words), c.engine.answers, c.engine.words, mis, old(c.engine.hardMode));
    r := c.SolutionSpace();
  }

  /** Pruning keeps only answers and words that were there, so the groupings can still be computed. */
  lemma PrunedStillGroupable(answers: seq<Word>, words: seq<Word>, answers': seq<Word>, words': seq<Word>, mis: seq<Instance>, hard: bool)
    requires forall w :: w in words ==> Scorable(answers, w)
    requires ScorableAll(answers, mis) && (hard ==> AllCheckable(mis, words))
    requires Prune(answers, mis).Ok? && Elems(answers') == Prune(answers, mis).value
    requires words' == if hard then HardWords(words, mis) else words
    ensures forall w :: w in words' ==> Scorable(answers', w)
  {
    PruneSubset(answers, mis);
    forall w | w in words' ensures Scorable(answers', w) {
      if hard {
        HardWordsMembers(words, mis, w);
      }
      forall a | a in answers' ensures |a| <= |w| {
        assert a in Elems(answers');
      }
    }
  }
}
