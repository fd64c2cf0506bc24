/**
 * Feedback masks (model/masks.py): the duplicate-aware scorer of a guess
 * against an answer, the base-3 encoding of a mask and its decoder, and the
 * check that a word is consistent with one observed (guess, mask) pair.
 */
module Masks {
  import opened Common
  import opened Collections

  const Absent := 0
  const Present := 1
  const Correct := 2

  predicate ValidMask(m: Mask)
  {
    forall i :: 0 <= i < |m| ==> 0 <= m[i] <= 2
  }

  /** `Mask.solved`: every mark is "correct". */
  predicate Solved(m: Mask)
  {
    forall i :: 0 <= i < |m| ==> m[i] == Correct
  }

  // ---------------------------------------------------------------------
  // Scoring a guess against an answer
  // ---------------------------------------------------------------------

  /** The guess letters at the first `i` positions where guess and answer agree. */
  function Greens(answer: Word, guess: Word, i: nat): multiset<char>
    requires i <= |answer| <= |guess|
  {
    if i == 0 then multiset{}
    else Greens(answer, guess, i - 1) + (if guess[i - 1] == answer[i - 1] then multiset{guess[i - 1]} else multiset{})
  }

  /** The answer letters at the first `i` positions where guess and answer differ. */
  function NonGreen(answer: Word, guess: Word, i: nat): multiset<char>
    requires i <= |answer| <= |guess|
  {
    if i == 0 then multiset{}
    else NonGreen(answer, guess, i - 1) + (if guess[i - 1] != answer[i - 1] then multiset{answer[i - 1]} else multiset{})
  }

  /** The guess letters at the first `i` positions where guess and answer differ. */
  function Misses(answer: Word, guess: Word, i: nat): multiset<char>
    requires i <= |answer| <= |guess|
  {
    if i == 0 then multiset{}
    else Misses(answer, guess, i - 1) + (if guess[i - 1] != answer[i - 1] then multiset{guess[i - 1]} else multiset{})
  }

  /**
   * The mark of position `i`: correct where the letters agree; otherwise
   * present exactly when fewer earlier misplaced guess letters share this
   * letter than the answer has unmatched copies of it, so the unmatched
   * copies are handed out to the leftmost misplaced guess letters.
   */
  function MarkAt(answer: Word, guess: Word, i: nat): int
    requires i < |answer| <= |guess|
  {
    if guess[i] == answer[i] then Correct
    else if Misses(answer, guess, i)[guess[i]] < NonGreen(answer, guess, |answer|)[guess[i]] then Present
    else Absent
  }

  /** `Mask.for_answer(answer, guess)`, the specification of `ForAnswer`. */
  function Feedback(answer: Word, guess: Word): (m: Mask)
    requires |answer| <= |guess|
    ensures |m| == |answer| && ValidMask(m)
    ensures forall i :: 0 <= i < |answer| ==> (m[i] == Correct <==> guess[i] == answer[i])
  {
    seq(|answer|, i requires 0 <= i < |answer| => MarkAt(answer, guess, i))
  }

  /** Claiming one more copy of a letter that is still available. */
  lemma RemoveClaimed(available: seq<char>, whole: multiset<char>, taken: multiset<char>, c: char)
    requires multiset(available) == whole - taken && c in available
    ensures multiset(RemoveFirst(available, c)) == whole - (taken + multiset{c})
  {
  }

  /** Claiming a letter with no copy left changes nothing. */
  lemma ClaimNothing(whole: multiset<char>, taken: multiset<char>, c: char)
    requires (whole - taken)[c] == 0
    ensures whole - taken == whole - (taken + multiset{c})
  {
  }

  /** What the first pass of `ForAnswer` knows after `i` positions. */
  predicate FirstPassInv(answer: Word, guess: Word, i: nat, resp: Mask, bucket: seq<char>)
    requires i <= |answer| <= |guess|
  {
    && |resp| == |answer|
    && (forall j :: 0 <= j < i ==> resp[j] == (if guess[j] == answer[j] then Correct else Absent))
    && (forall j :: i <= j < |answer| ==> resp[j] == Absent)
    && multiset(bucket) == multiset(answer[i..]) + NonGreen(answer, guess, i)
  }

  /** One step of the first pass of `ForAnswer`. */
  lemma FirstPassStep(answer: Word, guess: Word, i: nat, resp: Mask, bucket: seq<char>)
    requires i < |answer| <= |guess|
    requires FirstPassInv(answer, guess, i, resp, bucket)
    ensures guess[i] == answer[i] ==>
      (answer[i] in bucket && FirstPassInv(answer, guess, i + 1, resp[i := Correct], RemoveFirst(bucket, answer[i])))
    ensures guess[i] != answer[i] ==> FirstPassInv(answer, guess, i + 1, resp, bucket)
  {
    assert answer[i..] == [answer[i]] + answer[i + 1..];
    if guess[i] == answer[i] {
      FirstPassMatched(answer, guess, i, resp, bucket);
    } else {
      assert NonGreen(answer, guess, i + 1) == NonGreen(answer, guess, i) + multiset{answer[i]};
    }
  }

  /** A position where guess and answer agree is marked correct and uses up its answer letter. */
  lemma FirstPassMatched(answer: Word, guess: Word, i: nat, resp: Mask, bucket: seq<char>)
    requires i < |answer| <= |guess| && guess[i] == answer[i]
    requires FirstPassInv(answer, guess, i, resp, bucket)
    requires answer[i..] == [answer[i]] + answer[i + 1..]
    ensures answer[i] in bucket && FirstPassInv(answer, guess, i + 1, resp[i := Correct], RemoveFirst(bucket, answer[i]))
  {
    var c, rest, unmatched := answer[i], multiset(answer[i + 1..]), NonGreen(answer, guess, i);
    assert multiset(answer[i..]) == multiset{c} + rest;
    assert c in multiset(bucket);
    assert NonGreen(answer, guess, i + 1) == unmatched;
    TakeOne(multiset(bucket), c, rest, unmatched);
  }

  lemma TakeOne(x: multiset<char>, c: char, m: multiset<char>, n: multiset<char>)
    requires x == multiset{c} + m + n
    ensures x - multiset{c} == m + n
  {
  }

  /** After the first pass, only the unmatched answer letters are left. */
  lemma FirstPassDone(answer: Word, guess: Word, resp: Mask, bucket: seq<char>)
    requires |answer| <= |guess|
    requires FirstPassInv(answer, guess, |answer|, resp, bucket)
    ensures SecondPassInv(answer, guess, 0, resp, bucket)
  {
    assert answer[|answer|..] == [];
  }

  /** What the second pass of `ForAnswer` knows after `i` positions. */
  predicate SecondPassInv(answer: Word, guess: Word, i: nat, resp: Mask, bucket: seq<char>)
    requires i <= |answer| <= |guess|
  {
    && |resp| == |answer|
    && (forall j :: 0 <= j < i ==> resp[j] == MarkAt(answer, guess, j))
    && (forall j :: i <= j < |answer| ==> resp[j] == (if guess[j] == answer[j] then Correct else Absent))
    && multiset(bucket) == NonGreen(answer, guess, |answer|) - Misses(answer, guess, i)
  }

  /** One step of the second pass of `ForAnswer`. */
  lemma SecondPassStep(answer: Word, guess: Word, i: nat, resp: Mask, bucket: seq<char>)
    requires i < |answer| <= |guess|
    requires SecondPassInv(answer, guess, i, resp, bucket)
    ensures resp[i] < Correct && guess[i] in bucket ==>
      SecondPassInv(answer, guess, i + 1, resp[i := Present], RemoveFirst(bucket, guess[i]))
    ensures !(resp[i] < Correct && guess[i] in bucket) ==>
      SecondPassInv(answer, guess, i + 1, resp, bucket)
  {
    assert resp[i] < Correct <==> guess[i] != answer[i];
    if guess[i] == answer[i] {
      SecondPassMatched(answer, guess, i, resp, bucket);
    } else if guess[i] in bucket {
      SecondPassClaim(answer, guess, i, resp, bucket);
    } else {
      SecondPassNoCopy(answer, guess, i, resp, bucket);
    }
  }

  /** A position where guess and answer agree keeps its "correct" mark and claims nothing. */
  lemma SecondPassMatched(answer: Word, guess: Word, i: nat, resp: Mask, bucket: seq<char>)
    requires i < |answer| <= |guess| && guess[i] == answer[i]
    requires SecondPassInv(answer, guess, i, resp, bucket)
    ensures SecondPassInv(answer, guess, i + 1, resp, bucket)
  {
    assert Misses(answer, guess, i + 1) == Misses(answer, guess, i);
    assert resp[i] == MarkAt(answer, guess, i);
  }

  /** A misplaced letter with a copy left is marked present and takes that copy. */
  lemma SecondPassClaim(answer: Word, guess: Word, i: nat, resp: Mask, bucket: seq<char>)
    requires i < |answer| <= |guess| && guess[i] != answer[i] && guess[i] in bucket
    requires SecondPassInv(answer, guess, i, resp, bucket)
    ensures SecondPassInv(answer, guess, i + 1, resp[i := Present], RemoveFirst(bucket, guess[i]))
  {
    var c := guess[i];
    var spare, misses := NonGreen(answer, guess, |answer|), Misses(answer, guess, i);
    assert multiset(bucket)[c] > 0;
    assert misses[c] < spare[c];
    assert MarkAt(answer, guess, i) == Present;
    assert Misses(answer, guess, i + 1) == misses + multiset{c};
    RemoveClaimed(bucket, spare, misses, c);
  }

  /** A misplaced letter with no copy left stays absent. */
  lemma SecondPassNoCopy(answer: Word, guess: Word, i: nat, resp: Mask, bucket: seq<char>)
    requires i < |answer| <= |guess| && guess[i] != answer[i] && guess[i] !in bucket
    requires SecondPassInv(answer, guess, i, resp, bucket)
    ensures SecondPassInv(answer, guess, i + 1, resp, bucket)
  {
    var c := guess[i];
    var spare, misses := NonGreen(answer, guess, |answer|), Misses(answer, guess, i);
    assert multiset(bucket)[c] == 0;
    assert MarkAt(answer, guess, i) == Absent;
    assert Misses(answer, guess, i + 1) == misses + multiset{c};
    ClaimNothing(spare, misses, c);
  }

  lemma SecondPassDone(answer: Word, guess: Word, resp: Mask, bucket: seq<char>)
    requires |answer| <= |guess|
    requires SecondPassInv(answer, guess, |answer|, resp, bucket)
    ensures resp == Feedback(answer, guess)
  {
  }

  /**
   * `Mask.for_answer`: marks the exact matches, then hands the answer's
   * remaining letters to the misplaced guess letters from left to right.
   */
  method ForAnswer(answer: Word, guess: Word) returns (resp: Mask)
    requires |answer| <= |guess|
    ensures resp == Feedback(answer, guess)
  {
    var n := |answer|;
    resp := seq(n, _ => Absent);
    var bucket := answer;
    for i := 0 to n
      invariant FirstPassInv(answer, guess, i, resp, bucket)
    {
      FirstPassStep(answer, guess, i, resp, bucket);
      if guess[i] == answer[i] {
        resp := resp[i := Correct];
        bucket := RemoveFirst(bucket, answer[i]);
      }
    }
    FirstPassDone(answer, guess, resp, bucket);
    for i := 0 to n
      invariant SecondPassInv(answer, guess, i, resp, bucket)
    {
      SecondPassStep(answer, guess, i, resp, bucket);
      if resp[i] < Correct && guess[i] in bucket {
        resp := resp[i := Present];
        bucket := RemoveFirst(bucket, guess[i]);
      }
    }
    SecondPassDone(answer, guess, resp, bucket);
  }

  /** A letter count in the answer splits into its matched and unmatched copies. */
  lemma {:induction false} AnswerSplit(answer: Word, guess: Word, i: nat)
    requires i <= |answer| <= |guess|
    ensures multiset(answer[..i]) == Greens(answer, guess, i) + NonGreen(answer, guess, i)
  {
    if i > 0 {
      var k := i - 1;
      AnswerSplit(answer, guess, k);
      assert answer[..i] == answer[..k] + [answer[k]];
      var g: multiset<char> := if guess[k] == answer[k] then multiset{guess[k]} else multiset{};
      var n: multiset<char> := if guess[k] != answer[k] then multiset{answer[k]} else multiset{};
      assert Greens(answer, guess, i) == Greens(answer, guess, k) + g;
      assert NonGreen(answer, guess, i) == NonGreen(answer, guess, k) + n;
      Regroup(multiset(answer[..k]), Greens(answer, guess, k), NonGreen(answer, guess, k), g, n, answer[k]);
    }
  }

  /** The same for the guess: matched copies plus misplaced copies. */
  lemma {:induction false} GuessSplit(answer: Word, guess: Word, i: nat)
    requires i <= |answer| <= |guess|
    ensures multiset(guess[..i]) == Greens(answer, guess, i) + Misses(answer, guess, i)
  {
    if i > 0 {
      var k := i - 1;
      GuessSplit(answer, guess, k);
      assert guess[..i] == guess[..k] + [guess[k]];
      var g: multiset<char> := if guess[k] == answer[k] then multiset{guess[k]} else multiset{};
      var n: multiset<char> := if guess[k] != answer[k] then multiset{guess[k]} else multiset{};
      assert Greens(answer, guess, i) == Greens(answer, guess, k) + g;
      assert Misses(answer, guess, i) == Misses(answer, guess, k) + n;
      Regroup(multiset(guess[..k]), Greens(answer, guess, k), Misses(answer, guess, k), g, n, guess[k]);
    }
  }

  /** Adding one letter to a split multiset adds it to one of the two parts. */
  lemma Regroup(w: multiset<char>, a: multiset<char>, b: multiset<char>, x: multiset<char>, y: multiset<char>, c: char)
    requires w == a + b && x + y == multiset{c}
    ensures w + multiset{c} == (a + x) + (b + y)
  {
  }

  /** The letters of `w` at the first `i` positions marked present or correct. */
  function Credited(m: Mask, w: Word, i: nat): multiset<char>
    requires i <= |m| && i <= |w|
  {
    if i == 0 then multiset{}
    else Credited(m, w, i - 1) + (if m[i - 1] == Present || m[i - 1] == Correct then multiset{w[i - 1]} else multiset{})
  }

  function Min(a: int, b: int): int
  {
    if a <= b then a else b
  }

  /** The change in the credited count of `c` made by position `i - 1` of a feedback. */
  lemma CreditedStep(answer: Word, guess: Word, m: Mask, i: nat, c: char)
    requires 0 < i <= |answer| <= |guess| && |m| == |answer|
    requires m[i - 1] == MarkAt(answer, guess, i - 1)
    ensures Credited(m, guess, i)[c] - Credited(m, guess, i - 1)[c]
      == (Greens(answer, guess, i)[c] - Greens(answer, guess, i - 1)[c])
       + (Min(Misses(answer, guess, i)[c], NonGreen(answer, guess, |answer|)[c])
          - Min(Misses(answer, guess, i - 1)[c], NonGreen(answer, guess, |answer|)[c]))
  {
    var k := i - 1;
    if guess[k] == answer[k] {
      assert Misses(answer, guess, i) == Misses(answer, guess, k);
    } else {
      assert Greens(answer, guess, i) == Greens(answer, guess, k);
      assert Misses(answer, guess, i) == Misses(answer, guess, k) + multiset{guess[k]};
    }
  }

  /** How many copies of each letter the first `i` marks of a feedback credit. */
  lemma {:induction false} CreditedPrefix(answer: Word, guess: Word, m: Mask, i: nat, c: char)
    requires i <= |answer| <= |guess| && |m| == |answer|
    requires forall k :: 0 <= k < |answer| ==> m[k] == MarkAt(answer, guess, k)
    ensures Credited(m, guess, i)[c]
      == Greens(answer, guess, i)[c] + Min(Misses(answer, guess, i)[c], NonGreen(answer, guess, |answer|)[c])
  {
    if i > 0 {
      CreditedPrefix(answer, guess, m, i - 1, c);
      CreditedStep(answer, guess, m, i, c);
    }
  }

  /**
   * The duplicate-letter rule: for every letter, the guess positions
   * credited (present or correct) number the smaller of its count in the
   * answer and its count in the scored part of the guess.
   */
  lemma LetterCredit(answer: Word, guess: Word, c: char)
    requires |answer| <= |guess|
    ensures Credited(Feedback(answer, guess), guess, |answer|)[c]
      == Min(multiset(answer)[c], multiset(guess[..|answer|])[c])
  {
    var n := |answer|;
    CreditedPrefix(answer, guess, Feedback(answer, guess), n, c);
    AnswerSplit(answer, guess, n);
    GuessSplit(answer, guess, n);
    assert answer[..n] == answer;
  }

  /** A mask is all-correct exactly when the guess spells the answer. */
  lemma SolvedIff(answer: Word, guess: Word)
    requires |answer| <= |guess|
    ensures Solved(Feedback(answer, guess)) <==> guess[..|answer|] == answer
  {
    var m := Feedback(answer, guess);
    if guess[..|answer|] == answer {
      forall i | 0 <= i < |m| ensures m[i] == Correct {
        assert guess[..|answer|][i] == guess[i];
      }
    }
    if Solved(m) {
      forall i | 0 <= i < |answer| ensures guess[..|answer|][i] == answer[i] {
        assert m[i] == Correct;
      }
    }
  }

  /** The worked example with repeated letters. */
  lemma GoldenFeedback()
    ensures Feedback("ababa", "aabbb") == [2, 1, 1, 2, 0]
  {
    var a, g := "ababa", "aabbb";
    GoldenUnmatched();
    GoldenMisses();
    assert MarkAt(a, g, 0) == 2;
    assert MarkAt(a, g, 1) == 1;
    assert MarkAt(a, g, 2) == 1;
    assert MarkAt(a, g, 3) == 2;
    assert MarkAt(a, g, 4) == 0;
  }

  /** In the worked example two 'a's and one 'b' of the answer are unmatched. */
  lemma GoldenUnmatched()
    ensures NonGreen("ababa", "aabbb", 5) == multiset{'b', 'a', 'a'}
  {
    var a, g := "ababa", "aabbb";
    GoldenUnmatchedPrefix();
    assert a[3] == 'b' && a[4] == 'a' && g[3] == 'b' && g[4] == 'b';
    assert NonGreen(a, g, 4) == multiset{'b', 'a'};
  }

  lemma GoldenUnmatchedPrefix()
    ensures NonGreen("ababa", "aabbb", 3) == multiset{'b', 'a'}
  {
    var a, g := "ababa", "aabbb";
    assert a[0] == 'a' && a[1] == 'b' && a[2] == 'a';
    assert g[0] == 'a' && g[1] == 'a' && g[2] == 'b';
    assert NonGreen(a, g, 1) == multiset{};
    assert NonGreen(a, g, 2) == multiset{'b'};
  }

  /** The misplaced guess letters of the worked example, position by position. */
  lemma GoldenMisses()
    ensures Misses("ababa", "aabbb", 1) == multiset{}
    ensures Misses("ababa", "aabbb", 2) == multiset{'a'}
    ensures Misses("ababa", "aabbb", 4) == multiset{'a', 'b'}
  {
    var a, g := "ababa", "aabbb";
    assert a[0] == 'a' && a[1] == 'b' && a[2] == 'a' && a[3] == 'b' && a[4] == 'a';
    assert g[0] == 'a' && g[1] == 'a' && g[2] == 'b' && g[3] == 'b' && g[4] == 'b';
    assert Misses(a, g, 3) == multiset{'a', 'b'};
  }

  // ---------------------------------------------------------------------
  // The base-3 code of a mask (`__hash__`) and its decoder (`numbered`)
  // ---------------------------------------------------------------------

  function Pow3(k: nat): nat
  {
    if k == 0 then 1 else 3 * Pow3(k - 1)
  }

  /** The little-endian base-3 number whose digits are the marks. */
  function Value(m: Mask): int
  {
    if m == [] then 0 else m[0] + 3 * Value(m[1..])
  }

  /** `Mask.__hash__`: Horner's rule over the marks, last mark first. */
  method HashOf(m: Mask) returns (val: int)
    ensures val == Value(m)
  {
    val := 0;
    var k := |m|;
    while k > 0
      invariant 0 <= k <= |m|
      invariant val == Value(m[k..])
    {
      k := k - 1;
      assert m[k..][1..] == m[k + 1..];
      val := val * 3 + m[k];
    }
    assert m[0..] == m;
  }

  /** `Σ m[i]·3^i` over the first `k` marks. */
  function PositionalSum(m: Mask, k: nat): int
    requires k <= |m|
  {
    if k == 0 then 0 else PositionalSum(m, k - 1) + m[k - 1] * Pow3(k - 1)
  }

  lemma {:induction false} PositionalShift(m: Mask, k: nat)
    requires 1 <= k <= |m|
    ensures PositionalSum(m, k) == m[0] + 3 * PositionalSum(m[1..], k - 1)
  {
    if k > 1 {
      PositionalShift(m, k - 1);
      assert m[1..][k - 2] == m[k - 1];
    }
  }

  /** The hash is the positional base-3 value of the mask, first mark least significant. */
  lemma {:induction false} ValueIsPositional(m: Mask)
    ensures Value(m) == PositionalSum(m, |m|)
  {
    if m != [] {
      ValueIsPositional(m[1..]);
      PositionalShift(m, |m|);
    }
  }

  lemma {:induction false} ValueRange(m: Mask)
    requires ValidMask(m)
    ensures 0 <= Value(m) < Pow3(|m|)
  {
    if m != [] {
      ValueRange(m[1..]);
    }
  }

  /** `numbered(n, l)`: the `l` lowest base-3 digits of `n`, least significant first. */
  function Digits(n: int, l: int): (m: Mask)
    ensures |m| == (if l <= 0 then 0 else l)
    ensures ValidMask(m)
    decreases l
  {
    if l <= 0 then [] else [n % 3] + Digits(n / 3, l - 1)
  }

  /**
   * `Mask.numbered`: repeatedly takes the remainder and the floor quotient
   * by three. Python's `%` and `//` by a positive divisor agree with
   * Dafny's on negative numbers too.
   */
  method Numbered(n: int, l: int) returns (m: Mask)
    ensures m == Digits(n, l)
  {
    var val, c := n, l;
    m := [];
    while c > 0
      invariant m + Digits(val, c) == Digits(n, l)
      decreases c
    {
      assert Digits(val, c) == [val % 3] + Digits(val / 3, c - 1);
      m := m + [val % 3];
      val := val / 3;
      c := c - 1;
    }
  }

  /** Decoding the hash of a mask with marks in 0..2 gives the mask back. */
  lemma {:induction false} DigitsOfValue(m: Mask)
    requires ValidMask(m)
    ensures Digits(Value(m), |m|) == m
  {
    if m != [] {
      var r := Value(m[1..]);
      DigitOf(m[0], r);
      DigitsOfValue(m[1..]);
      assert Digits(Value(m), |m|) == [m[0]] + Digits(r, |m| - 1);
    }
  }

  lemma DigitOf(d: int, r: int)
    requires 0 <= d < 3
    ensures (d + 3 * r) % 3 == d && (d + 3 * r) / 3 == r
  {
  }

  /** Distinct masks of one length have distinct hashes. */
  lemma ValueInjective(a: Mask, b: Mask)
    requires ValidMask(a) && ValidMask(b) && |a| == |b| && Value(a) == Value(b)
    ensures a == b
  {
    DigitsOfValue(a);
    DigitsOfValue(b);
  }

  // ---------------------------------------------------------------------
  // Consistency of a word with an observed (guess, mask) pair
  // ---------------------------------------------------------------------

  /** `MaskInstance`: the mask that came back for the guess `cause`. */
  datatype Instance = Instance(mask: Mask, cause: Word)

  /** `MaskInstance.for_answer`. */
  function InstanceFor(answer: Word, guess: Word): (mi: Instance)
    requires |answer| <= |guess|
    ensures mi.cause == guess && |mi.mask| == |answer|
    ensures Solved(mi.mask) <==> guess[..|answer|] == answer
  {
    SolvedIff(answer, guess);
    Instance(Feedback(answer, guess), guess)
  }

  predicate Credits(mark: int)
  {
    mark == Present || mark == Correct
  }

  /**
   * The checks `matches` makes at position `i` of its first pass: the mark
   * is "correct" exactly where the letters agree, and a present or correct
   * mark finds a copy of its letter not already claimed by an earlier one.
   */
  predicate PositionOk(mi: Instance, subject: Word, i: nat)
    requires i < |mi.cause| <= |subject| && |mi.cause| <= |mi.mask|
  {
    && (mi.mask[i] == Correct <==> subject[i] == mi.cause[i])
    && (Credits(mi.mask[i]) ==> Credited(mi.mask, mi.cause, i)[mi.cause[i]] < multiset(subject)[mi.cause[i]])
  }

  /** The check of the second pass: an absent letter has no unclaimed copy left. */
  predicate AbsentOk(mi: Instance, subject: Word, i: nat)
    requires i < |mi.cause| <= |subject| && |mi.cause| <= |mi.mask|
  {
    mi.mask[i] == Absent ==> mi.cause[i] !in multiset(subject) - Credited(mi.mask, mi.cause, |mi.cause|)
  }

  /** The first-pass checks hold at the first `i` positions. */
  predicate ClaimsUpTo(mi: Instance, subject: Word, i: nat)
    requires i <= |mi.cause| <= |subject| && |mi.cause| <= |mi.mask|
  {
    i == 0 || (ClaimsUpTo(mi, subject, i - 1) && PositionOk(mi, subject, i - 1))
  }

  /** The second-pass checks hold at the first `i` positions. */
  predicate AbsentsUpTo(mi: Instance, subject: Word, i: nat)
    requires i <= |mi.cause| <= |subject| && |mi.cause| <= |mi.mask|
  {
    i == 0 || (AbsentsUpTo(mi, subject, i - 1) && AbsentOk(mi, subject, i - 1))
  }

  /**
   * The verdict of `matches`: every first-pass check and every second-pass
   * check holds (`MatchRuleAll` states it position by position).
   */
  predicate MatchRule(mi: Instance, subject: Word)
    requires |mi.cause| <= |subject| && |mi.cause| <= |mi.mask|
  {
    ClaimsUpTo(mi, subject, |mi.cause|) && AbsentsUpTo(mi, subject, |mi.cause|)
  }

  lemma {:induction false} UpToAll(mi: Instance, subject: Word, i: nat)
    requires i <= |mi.cause| <= |subject| && |mi.cause| <= |mi.mask|
    ensures ClaimsUpTo(mi, subject, i) <==> forall j :: 0 <= j < i ==> PositionOk(mi, subject, j)
    ensures AbsentsUpTo(mi, subject, i) <==> forall j :: 0 <= j < i ==> AbsentOk(mi, subject, j)
  {
    if i > 0 {
      UpToAll(mi, subject, i - 1);
    }
  }

  /** What the first pass of `Matches` knows after `i` positions. */
  predicate ClaimInv(mi: Instance, subject: Word, i: nat, available: seq<char>)
    requires i <= |mi.cause| <= |subject| && |mi.cause| <= |mi.mask|
  {
    && multiset(available) == multiset(subject) - Credited(mi.mask, mi.cause, i)
    && ClaimsUpTo(mi, subject, i)
  }

  /** A correct mark whose letter matches and is still available. */
  lemma ClaimCorrect(mi: Instance, subject: Word, i: nat, available: seq<char>)
    requires i < |mi.cause| <= |subject| && |mi.cause| <= |mi.mask|
    requires ClaimInv(mi, subject, i, available) && mi.mask[i] == Correct
    requires subject[i] == mi.cause[i] && mi.cause[i] in available
    ensures ClaimInv(mi, subject, i + 1, RemoveFirst(available, subject[i]))
  {
    var c := mi.cause[i];
    assert c in available <==> multiset(available)[c] > 0;
    RemoveClaimed(available, multiset(subject), Credited(mi.mask, mi.cause, i), c);
  }

  /** A correct mark whose letter differs or has no copy left fails the first pass. */
  lemma RejectCorrect(mi: Instance, subject: Word, i: nat, available: seq<char>)
    requires i < |mi.cause| <= |subject| && |mi.cause| <= |mi.mask|
    requires ClaimInv(mi, subject, i, available) && mi.mask[i] == Correct
    requires subject[i] != mi.cause[i] || mi.cause[i] !in available
    ensures !ClaimsUpTo(mi, subject, |mi.cause|)
  {
    var c := mi.cause[i];
    assert c in available <==> multiset(available)[c] > 0;
    assert !PositionOk(mi, subject, i);
    UpToAll(mi, subject, |mi.cause|);
  }

  /** A present mark whose letter is elsewhere and still available. */
  lemma ClaimPresent(mi: Instance, subject: Word, i: nat, available: seq<char>)
    requires i < |mi.cause| <= |subject| && |mi.cause| <= |mi.mask|
    requires ClaimInv(mi, subject, i, available) && mi.mask[i] == Present
    requires subject[i] != mi.cause[i] && mi.cause[i] in available
    ensures ClaimInv(mi, subject, i + 1, RemoveFirst(available, mi.cause[i]))
  {
    var c := mi.cause[i];
    assert c in available <==> multiset(available)[c] > 0;
    RemoveClaimed(available, multiset(subject), Credited(mi.mask, mi.cause, i), c);
  }

  /** A present mark whose letter sits right here or has no copy left fails the first pass. */
  lemma RejectPresent(mi: Instance, subject: Word, i: nat, available: seq<char>)
    requires i < |mi.cause| <= |subject| && |mi.cause| <= |mi.mask|
    requires ClaimInv(mi, subject, i, available) && mi.mask[i] == Present
    requires subject[i] == mi.cause[i] || mi.cause[i] !in available
    ensures !ClaimsUpTo(mi, subject, |mi.cause|)
  {
    var c := mi.cause[i];
    assert c in available <==> multiset(available)[c] > 0;
    assert !PositionOk(mi, subject, i);
    UpToAll(mi, subject, |mi.cause|);
  }

  /** Any other mark, over a letter that differs, claims nothing. */
  lemma ClaimNone(mi: Instance, subject: Word, i: nat, available: seq<char>)
    requires i < |mi.cause| <= |subject| && |mi.cause| <= |mi.mask|
    requires ClaimInv(mi, subject, i, available) && !Credits(mi.mask[i])
    requires subject[i] != mi.cause[i]
    ensures ClaimInv(mi, subject, i + 1, available)
  {
  }

  /** Any other mark over an agreeing letter fails the first pass. */
  lemma RejectNone(mi: Instance, subject: Word, i: nat)
    requires i < |mi.cause| <= |subject| && |mi.cause| <= |mi.mask|
    requires !Credits(mi.mask[i]) && subject[i] == mi.cause[i]
    ensures !ClaimsUpTo(mi, subject, |mi.cause|)
  {
    assert !PositionOk(mi, subject, i);
    UpToAll(mi, subject, |mi.cause|);
  }


  /** A position the second pass of `Matches` lets through. */
  lemma AbsentStep(mi: Instance, subject: Word, i: nat, available: seq<char>)
    requires i < |mi.cause| <= |subject| && |mi.cause| <= |mi.mask|
    requires multiset(available) == multiset(subject) - Credited(mi.mask, mi.cause, |mi.cause|)
    requires AbsentsUpTo(mi, subject, i)
    requires !(mi.mask[i] == Absent && (subject[i] == mi.cause[i] || mi.cause[i] in available))
    ensures AbsentsUpTo(mi, subject, i + 1)
  {
    assert mi.cause[i] in available <==> mi.cause[i] in multiset(available);
  }

  /** An absent mark over an agreeing letter or an unclaimed copy fails the second pass. */
  lemma RejectAbsent(mi: Instance, subject: Word, i: nat, available: seq<char>)
    requires i < |mi.cause| <= |subject| && |mi.cause| <= |mi.mask|
    requires ClaimInv(mi, subject, |mi.cause|, available)
    requires mi.mask[i] == Absent && (subject[i] == mi.cause[i] || mi.cause[i] in available)
    ensures !AbsentsUpTo(mi, subject, |mi.cause|)
  {
    assert mi.cause[i] in available <==> mi.cause[i] in multiset(available);
    UpToAll(mi, subject, |mi.cause|);
    assert PositionOk(mi, subject, i);
    assert !AbsentOk(mi, subject, i);
  }

  lemma MatchRuleAll(mi: Instance, subject: Word)
    requires |mi.cause| <= |subject| && |mi.cause| <= |mi.mask|
    ensures MatchRule(mi, subject) <==>
      && (forall i :: 0 <= i < |mi.cause| ==> PositionOk(mi, subject, i))
      && (forall i :: 0 <= i < |mi.cause| ==> AbsentOk(mi, subject, i))
  {
    UpToAll(mi, subject, |mi.cause|);
  }

  /** Matched and misplaced guess letters only accumulate along the word. */
  lemma {:induction false} PrefixGrowth(answer: Word, guess: Word, i: nat, j: nat)
    requires i <= j <= |answer| <= |guess|
    ensures Greens(answer, guess, i) <= Greens(answer, guess, j)
    ensures Misses(answer, guess, i) <= Misses(answer, guess, j)
  {
    if i < j {
      PrefixGrowth(answer, guess, i, j - 1);
      var g, m := Greens(answer, guess, j - 1), Misses(answer, guess, j - 1);
      assert g <= Greens(answer, guess, j) by {
        assert Greens(answer, guess, j) == g + (if guess[j - 1] == answer[j - 1] then multiset{guess[j - 1]} else multiset{});
      }
      assert m <= Misses(answer, guess, j) by {
        assert Misses(answer, guess, j) == m + (if guess[j - 1] != answer[j - 1] then multiset{guess[j - 1]} else multiset{});
      }
    }
  }

  /** Position `i` of a word passes both checks against its own feedback. */
  lemma OwnFeedbackAt(subject: Word, cause: Word, i: nat)
    requires |subject| == |cause| && i < |cause|
    ensures PositionOk(InstanceFor(subject, cause), subject, i)
    ensures AbsentOk(InstanceFor(subject, cause), subject, i)
  {
    var m := Feedback(subject, cause);
    var n := |cause|;
    var x := cause[i];
    assert m[i] == MarkAt(subject, cause, i);
    CreditedPrefix(subject, cause, m, i, x);
    CreditedPrefix(subject, cause, m, n, x);
    AnswerSplit(subject, cause, n);
    assert subject[..n] == subject;
    PrefixGrowth(subject, cause, i + 1, n);
  }

  /**
   * Soundness of `matches`: a word is always consistent with the mask it
   * would itself have produced for the same guess.
   */
  lemma MatchesOwnFeedback(subject: Word, cause: Word)
    requires |subject| == |cause|
    ensures MatchRule(InstanceFor(subject, cause), subject)
  {
    var mi := InstanceFor(subject, cause);
    forall i | 0 <= i < |cause|
      ensures PositionOk(mi, subject, i) && AbsentOk(mi, subject, i)
    {
      OwnFeedbackAt(subject, cause, i);
    }
    MatchRuleAll(mi, subject);
  }

  /** Passing the first-pass checks bounds every letter's credited count by its count in the subject. */
  lemma {:induction false} CreditBound(mi: Instance, subject: Word, j: nat, x: char)
    requires j <= |mi.cause| <= |subject| && |mi.cause| <= |mi.mask|
    requires ClaimsUpTo(mi, subject, j)
    ensures Credited(mi.mask, mi.cause, j)[x] <= multiset(subject)[x]
  {
    if j > 0 {
      CreditBound(mi, subject, j - 1, x);
    }
  }

  /** Two answers that agree with the guess at the same positions have the same matched and misplaced letters. */
  lemma {:induction false} SamePattern(a: Word, b: Word, guess: Word, i: nat)
    requires i <= |a| == |b| <= |guess|
    requires forall k :: 0 <= k < |a| ==> (a[k] == guess[k] <==> b[k] == guess[k])
    ensures Greens(a, guess, i) == Greens(b, guess, i)
    ensures Misses(a, guess, i) == Misses(b, guess, i)
  {
    if i > 0 {
      SamePattern(a, b, guess, i - 1);
    }
  }

  /** A word consistent with the feedback `other` produced for `cause` agrees with `cause` where `other` does. */
  lemma SameGreenPositions(subject: Word, other: Word, cause: Word)
    requires |subject| == |other| == |cause|
    requires MatchRule(InstanceFor(other, cause), subject)
    ensures forall k :: 0 <= k < |cause| ==> (subject[k] == cause[k] <==> other[k] == cause[k])
  {
    var mi := InstanceFor(other, cause);
    MatchRuleAll(mi, subject);
    forall k | 0 <= k < |cause|
      ensures subject[k] == cause[k] <==> other[k] == cause[k]
    {
      assert PositionOk(mi, subject, k);
      assert mi.mask[k] == MarkAt(other, cause, k);
    }
  }

  /** The mark of a misplaced letter: the count bounds of the two checks pin it down. */
  lemma ConsistentMiss(subject: Word, other: Word, cause: Word, i: nat)
    requires |subject| == |other| == |cause| && i < |cause| && subject[i] != cause[i]
    requires forall k :: 0 <= k < |cause| ==> (subject[k] == cause[k] <==> other[k] == cause[k])
    requires ClaimsUpTo(InstanceFor(other, cause), subject, |cause|)
    requires AbsentOk(InstanceFor(other, cause), subject, i)
    ensures MarkAt(subject, cause, i) == MarkAt(other, cause, i)
  {
    var mi := InstanceFor(other, cause);
    var n := |cause|;
    var x := cause[i];
    assert mi.mask[i] == MarkAt(other, cause, i);
    SamePattern(subject, other, cause, i);
    SamePattern(subject, other, cause, n);
    CreditedPrefix(other, cause, mi.mask, n, x);
    CreditBound(mi, subject, n, x);
    AnswerSplit(subject, cause, n);
    assert subject[..n] == subject;
    PrefixGrowth(subject, cause, i + 1, n);
  }

  /** A word consistent with the feedback `other` produced for `cause` gets the same mark at `i`. */
  lemma ConsistentAt(subject: Word, other: Word, cause: Word, i: nat)
    requires |subject| == |other| == |cause| && i < |cause|
    requires MatchRule(InstanceFor(other, cause), subject)
    ensures MarkAt(subject, cause, i) == MarkAt(other, cause, i)
  {
    SameGreenPositions(subject, other, cause);
    if subject[i] != cause[i] {
      MatchRuleAll(InstanceFor(other, cause), subject);
      ConsistentMiss(subject, other, cause, i);
    }
  }

  /**
   * `matches` is exact on masks that `for_answer` can produce: a word is
   * consistent with the feedback `other` produced for `cause` exactly when
   * it would produce the same feedback itself.
   */
  lemma MatchesExact(subject: Word, other: Word, cause: Word)
    requires |subject| == |other| == |cause|
    ensures MatchRule(InstanceFor(other, cause), subject) <==> Feedback(subject, cause) == Feedback(other, cause)
  {
    if Feedback(subject, cause) == Feedback(other, cause) {
      MatchesOwnFeedback(subject, cause);
    }
    if MatchRule(InstanceFor(other, cause), subject) {
      forall i | 0 <= i < |cause|
        ensures Feedback(subject, cause)[i] == Feedback(other, cause)[i]
      {
        ConsistentAt(subject, other, cause, i);
      }
    }
  }

  /**
   * On a mask `for_answer` never produces for the guess "aax" (the second
   * "a" present while the first is absent, see `UnproducibleMask`) `matches`
   * accepts "bca", whose own feedback for that guess differs.
   */
  lemma MatchesUnproducibleMask()
    ensures MatchRule(Instance([Absent, Present, Absent], "aax"), "bca")
    ensures Feedback("bca", "aax") == [Present, Absent, Absent]
  {
    BcaClaims();
    BcaAbsents();
    FeedbackBcaAax();
  }

  lemma BcaLetters()
    ensures multiset("bca") == multiset{'a', 'b', 'c'}
    ensures Credited([Absent, Present, Absent], "aax", 3) == multiset{'a'}
  {
    var s := "bca";
    assert s == [s[0]] + [s[1]] + [s[2]];
    assert multiset(s) == multiset{s[0]} + multiset{s[1]} + multiset{s[2]};
    assert Credited([Absent, Present, Absent], "aax", 1) == multiset{};
    assert Credited([Absent, Present, Absent], "aax", 2) == multiset{'a'};
  }

  lemma BcaClaims()
    ensures ClaimsUpTo(Instance([Absent, Present, Absent], "aax"), "bca", 3)
  {
    var mi, s := Instance([Absent, Present, Absent], "aax"), "bca";
    BcaLetters();
    assert Credited(mi.mask, mi.cause, 1) == multiset{};
    assert PositionOk(mi, s, 0);
    assert ClaimsUpTo(mi, s, 1);
    assert PositionOk(mi, s, 1);
    assert ClaimsUpTo(mi, s, 2);
    assert PositionOk(mi, s, 2);
  }

  lemma BcaAbsents()
    ensures AbsentsUpTo(Instance([Absent, Present, Absent], "aax"), "bca", 3)
  {
    var mi, s := Instance([Absent, Present, Absent], "aax"), "bca";
    BcaLetters();
    assert AbsentOk(mi, s, 0);
    assert AbsentsUpTo(mi, s, 1);
    assert AbsentOk(mi, s, 1);
    assert AbsentsUpTo(mi, s, 2);
    assert AbsentOk(mi, s, 2);
  }

  lemma FeedbackBcaAax()
    ensures Feedback("bca", "aax") == [Present, Absent, Absent]
  {
    var s, g := "bca", "aax";
    assert NonGreen(s, g, 1) == multiset{'b'};
    assert NonGreen(s, g, 2) == multiset{'b', 'c'};
    assert NonGreen(s, g, 3) == multiset{'a', 'b', 'c'};
    assert Misses(s, g, 1) == multiset{'a'};
    assert Misses(s, g, 2) == multiset{'a', 'a'};
    assert MarkAt(s, g, 0) == Present;
    assert MarkAt(s, g, 1) == Absent;
    assert MarkAt(s, g, 2) == Absent;
  }

  /** No answer of three letters draws the mask [absent, present, absent] for the guess "aax". */
  lemma UnproducibleMask(answer: Word)
    requires |answer| == 3
    ensures Feedback(answer, "aax") != [Absent, Present, Absent]
  {
    var m := Feedback(answer, "aax");
    if m[0] == Absent && answer[1] != 'a' {
      assert m[0] == MarkAt(answer, "aax", 0);
      assert m[1] == MarkAt(answer, "aax", 1);
      assert Misses(answer, "aax", 0) == multiset{};
      assert Misses(answer, "aax", 1) == multiset{'a'};
    }
  }

  /** The first loop of `MaskInstance.matches`: claim a copy of every credited letter. */
  method FirstPass(mi: Instance, subject: Word) returns (ok: bool, available: seq<char>)
    requires |mi.cause| <= |subject| && |mi.cause| <= |mi.mask|
    ensures ok == ClaimsUpTo(mi, subject, |mi.cause|)
    ensures ok ==> multiset(available) == multiset(subject) - Credited(mi.mask, mi.cause, |mi.cause|)
  {
    available := subject;
    var n := |mi.cause|;
    for i := 0 to n
      invariant ClaimInv(mi, subject, i, available)
    {
      var sch := subject[i];
      var compch := mi.cause[i];
      if mi.mask[i] == Correct {
        if sch != compch || compch !in available {
          RejectCorrect(mi, subject, i, available);
          return false, available;
        }
        ClaimCorrect(mi, subject, i, available);
        available := RemoveFirst(available, sch);
      } else if mi.mask[i] == Present {
        if sch == compch || compch !in available {
          RejectPresent(mi, subject, i, available);
          return false, available;
        }
        ClaimPresent(mi, subject, i, available);
        available := RemoveFirst(available, compch);
      } else if subject[i] == mi.cause[i] {
        RejectNone(mi, subject, i);
        return false, available;
      } else {
        ClaimNone(mi, subject, i, available);
      }
    }
    return true, available;
  }

  /** The second loop of `MaskInstance.matches`: an absent letter must have no unclaimed copy. */
  method SecondPass(mi: Instance, subject: Word, available: seq<char>) returns (ok: bool)
    requires |mi.cause| <= |subject| && |mi.cause| <= |mi.mask|
    requires ClaimInv(mi, subject, |mi.cause|, available)
    ensures ok == AbsentsUpTo(mi, subject, |mi.cause|)
  {
    var n := |mi.cause|;
    for i := 0 to n
      invariant AbsentsUpTo(mi, subject, i)
    {
      if mi.mask[i] == Absent {
        if subject[i] == mi.cause[i] || mi.cause[i] in available {
          RejectAbsent(mi, subject, i, available);
          return false;
        }
      }
      AbsentStep(mi, subject, i, available);
    }
    return true;
  }

  /** `MaskInstance.matches`. */
  method Matches(mi: Instance, subject: Word) returns (ok: bool)
    requires |mi.cause| <= |subject| && |mi.cause| <= |mi.mask|
    ensures ok == MatchRule(mi, subject)
  {
    var available;
    ok, available := FirstPass(mi, subject);
    if ok {
      ok := SecondPass(mi, subject, available);
    }
  }
}
