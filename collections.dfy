/**
 * Sequence utilities that stand for Python built-ins the solver leans on:
 * `list.remove`, `sum`, `min`/`max`, `sorted` (stable) and the ordering of
 * tuples and strings.
 */
module Collections {

  /** The elements of a sequence, as a set (Python's `set(list)`). */
  function Elems<T>(s: seq<T>): set<T>
  {
    set x | x in s
  }

  predicate Distinct<T(==)>(s: seq<T>)
  {
    forall i, j :: 0 <= i < j < |s| ==> s[i] != s[j]
  }

  /** Position of the first occurrence of `x`. */
  function IndexOf<T(==)>(s: seq<T>, x: T): (i: nat)
    requires x in s
    ensures i < |s| && s[i] == x && x !in s[..i]
  {
    if s[0] == x then 0
    else
      var k := IndexOf(s[1..], x);
      assert s[..k + 1] == [s[0]] + s[1..][..k];
      k + 1
  }

  /** Python's `list.remove(x)`: drops the first occurrence of `x`. */
  function RemoveFirst<T(==)>(s: seq<T>, x: T): (r: seq<T>)
    requires x in s
    ensures |r| == |s| - 1
    ensures multiset(r) == multiset(s) - multiset{x}
    ensures exists i :: 0 <= i < |s| && s[i] == x && x !in s[..i] && r == s[..i] + s[i + 1..]
  {
    var i := IndexOf(s, x);
    assert s == s[..i] + [x] + s[i + 1..];
    s[..i] + s[i + 1..]
  }

  function Sum(s: seq<int>): int
  {
    if s == [] then 0 else s[0] + Sum(s[1..])
  }

  lemma {:induction false} SumAppend(a: seq<int>, b: seq<int>)
    ensures Sum(a + b) == Sum(a) + Sum(b)
  {
    if a == [] {
      assert a + b == b;
    } else {
      assert (a + b)[1..] == a[1..] + b;
      SumAppend(a[1..], b);
    }
  }

  /** Taking one element out of a sequence takes one copy of it out of its multiset. */
  lemma MultisetRemoveAt<T>(b: seq<T>, k: nat)
    requires k < |b|
    ensures multiset(b[..k] + b[k + 1..]) == multiset(b) - multiset{b[k]}
  {
    assert b == b[..k] + [b[k]] + b[k + 1..];
  }

  /** Taking one element out of a sequence takes it out of its sum. */
  lemma SumRemoveAt(b: seq<int>, k: nat)
    requires k < |b|
    ensures Sum(b) == b[k] + Sum(b[..k] + b[k + 1..])
  {
    var before, after := b[..k], b[k + 1..];
    assert b == (before + [b[k]]) + after;
    SumSplice(before, b[k], after);
  }

  lemma SumSplice(before: seq<int>, x: int, after: seq<int>)
    ensures Sum((before + [x]) + after) == x + Sum(before + after)
  {
    SumAppend(before + [x], after);
    SumAppend(before, [x]);
    SumAppend(before, after);
    assert Sum([x]) == x + Sum([x][1..]);
  }

  /** `sum` forgets the order of its arguments. */
  lemma {:induction false} SumPermutation(a: seq<int>, b: seq<int>)
    requires multiset(a) == multiset(b)
    ensures Sum(a) == Sum(b)
  {
    if a != [] {
      assert a[0] in multiset(b);
      var k :| 0 <= k < |b| && b[k] == a[0];
      var rest := b[..k] + b[k + 1..];
      MultisetRemoveAt(b, k);
      assert a == [a[0]] + a[1..];
      assert multiset(a[1..]) == multiset(a) - multiset{a[0]};
      SumPermutation(a[1..], rest);
      SumRemoveAt(b, k);
    }
  }

  /** Adding up bigger terms gives a bigger sum. */
  lemma {:induction false} SumLe(a: seq<int>, b: seq<int>)
    requires |a| == |b| && forall i :: 0 <= i < |a| ==> a[i] <= b[i]
    ensures Sum(a) <= Sum(b)
  {
    if a != [] {
      SumLe(a[1..], b[1..]);
    }
  }

  /** The concatenation of a sequence of sequences (`[x for s in ss for x in s]`). */
  function Concat<T>(ss: seq<seq<T>>): seq<T>
  {
    if ss == [] then [] else ss[0] + Concat(ss[1..])
  }

  /** A concatenation is as long as its parts together, and holds their sums. */
  lemma {:induction false} ConcatSum(ss: seq<seq<int>>)
    ensures |Concat(ss)| == Sum(seq(|ss|, i requires 0 <= i < |ss| => |ss[i]|))
    ensures Sum(Concat(ss)) == Sum(seq(|ss|, i requires 0 <= i < |ss| => Sum(ss[i])))
  {
    if ss != [] {
      ConcatSum(ss[1..]);
      SumAppend(ss[0], Concat(ss[1..]));
      assert seq(|ss[1..]|, i requires 0 <= i < |ss[1..]| => |ss[1..][i]|)
          == seq(|ss|, i requires 0 <= i < |ss| => |ss[i]|)[1..];
      assert seq(|ss[1..]|, i requires 0 <= i < |ss[1..]| => Sum(ss[1..][i]))
          == seq(|ss|, i requires 0 <= i < |ss| => Sum(ss[i]))[1..];
    }
  }

  /** Every element of every part is in the concatenation. */
  lemma {:induction false} InConcat<T>(ss: seq<seq<T>>, i: nat, j: nat)
    requires i < |ss| && j < |ss[i]|
    ensures ss[i][j] in Concat(ss)
  {
    if i > 0 {
      InConcat(ss[1..], i - 1, j);
    }
  }

  /** A sequence has at least as many elements as its set, and as many when it has no repeats. */
  lemma {:induction false} ElemsCard<T>(s: seq<T>)
    ensures |Elems(s)| <= |s|
    ensures Distinct(s) ==> |Elems(s)| == |s|
  {
    if s != [] {
      var init, last := s[..|s| - 1], s[|s| - 1];
      assert s == init + [last];
      ElemsCard(init);
      assert Elems(s) == Elems(init) + {last};
      if Distinct(s) {
        assert Distinct(init);
        assert last !in Elems(init);
      }
    }
  }

  /** Python's `max` of a non-empty sequence of floats. */
  function MaxReal(s: seq<real>): (r: real)
    requires |s| > 0
    ensures r in s && forall x :: x in s ==> x <= r
    ensures forall i :: 0 <= i < |s| ==> s[i] <= r
  {
    if |s| == 1 then s[0]
    else
      var m := MaxReal(s[1..]);
      assert s == [s[0]] + s[1..];
      if s[0] >= m then s[0] else m
  }

  /** Python's `min` of a non-empty sequence of floats. */
  function MinReal(s: seq<real>): (r: real)
    requires |s| > 0
    ensures r in s && forall x :: x in s ==> r <= x
    ensures forall i :: 0 <= i < |s| ==> r <= s[i]
  {
    if |s| == 1 then s[0]
    else
      var m := MinReal(s[1..]);
      assert s == [s[0]] + s[1..];
      if s[0] <= m then s[0] else m
  }

  /** Ints as floats, element by element. */
  function AsReals(s: seq<int>): (r: seq<real>)
  {
    seq(|s|, i requires 0 <= i < |s| => s[i] as real)
  }

  /** Python's `max` of a non-empty sequence of ints: the float maximum, which is one of the ints. */
  function MaxInt(s: seq<int>): (r: int)
    requires |s| > 0
    ensures r in s && forall x :: x in s ==> x <= r
    ensures forall i :: 0 <= i < |s| ==> s[i] <= r
  {
    var m := MaxReal(AsReals(s));
    assert m.Floor in s && forall i :: 0 <= i < |s| ==> s[i] <= m.Floor by {
      var k :| 0 <= k < |s| && AsReals(s)[k] == m;
      assert m == s[k] as real;
      forall i | 0 <= i < |s| ensures s[i] <= m.Floor {
        assert AsReals(s)[i] <= m;
      }
    }
    m.Floor
  }

  /** Python's `min` of a non-empty sequence of ints: the float minimum, which is one of the ints. */
  function MinInt(s: seq<int>): (r: int)
    requires |s| > 0
    ensures r in s && forall x :: x in s ==> r <= x
    ensures forall i :: 0 <= i < |s| ==> r <= s[i]
  {
    var m := MinReal(AsReals(s));
    assert m.Floor in s && forall i :: 0 <= i < |s| ==> m.Floor <= s[i] by {
      var k :| 0 <= k < |s| && AsReals(s)[k] == m;
      assert m == s[k] as real;
      forall i | 0 <= i < |s| ensures m.Floor <= s[i] {
        assert m <= AsReals(s)[i];
      }
    }
    m.Floor
  }

  // ---------------------------------------------------------------------
  // Orders and sorting
  // ---------------------------------------------------------------------

  ghost predicate TotalPreorder<T(!new)>(le: (T, T) -> bool)
  {
    && (forall a, b :: le(a, b) || le(b, a))
    && (forall a, b, c :: le(a, b) && le(b, c) ==> le(a, c))
  }

  ghost predicate Antisymmetric<T(!new)>(le: (T, T) -> bool)
  {
    forall a, b :: le(a, b) && le(b, a) ==> a == b
  }

  predicate SortedBy<T>(s: seq<T>, le: (T, T) -> bool)
  {
    forall i, j :: 0 <= i < j < |s| ==> le(s[i], s[j])
  }

  /** Inserts `x` after every leading element that may precede it. */
  function InsertBy<T>(s: seq<T>, x: T, le: (T, T) -> bool): (r: seq<T>)
    ensures |r| == |s| + 1
    ensures multiset(r) == multiset(s) + multiset{x}
  {
    if s == [] then [x]
    else if le(s[0], x) then
      var r := [s[0]] + InsertBy(s[1..], x, le);
      assert s == [s[0]] + s[1..];
      r
    else [x] + s
  }

  /**
   * Python's `sorted`: a stable sort, so an element never overtakes an
   * earlier one it ties with. `le(a, b)` means "a may precede b";
   * `sorted(..., reverse=True)` is `le(a, b) := key(b) <= key(a)`.
   */
  function SortBy<T>(s: seq<T>, le: (T, T) -> bool): (r: seq<T>)
    ensures |r| == |s|
    ensures multiset(r) == multiset(s)
  {
    if s == [] then []
    else
      assert s == s[..|s| - 1] + [s[|s| - 1]];
      InsertBy(SortBy(s[..|s| - 1], le), s[|s| - 1], le)
  }

  lemma {:induction false} InsertBySorted<T(!new)>(s: seq<T>, x: T, le: (T, T) -> bool)
    requires TotalPreorder(le) && SortedBy(s, le)
    ensures SortedBy(InsertBy(s, x, le), le)
  {
    if s != [] {
      if le(s[0], x) {
        SortedTail(s, le);
        InsertBySorted(s[1..], x, le);
        InsertByPast(s, x, le);
        HeadBeforeInserted(s, x, le);
        ConsSorted(s[0], InsertBy(s[1..], x, le), le);
      } else {
        FrontSorted(s, x, le);
      }
    }
  }

  /** The head of a sorted sequence may precede everything in the rest with `x` inserted after it. */
  lemma HeadBeforeInserted<T(!new)>(s: seq<T>, x: T, le: (T, T) -> bool)
    requires TotalPreorder(le) && SortedBy(s, le) && s != [] && le(s[0], x)
    ensures forall j :: 0 <= j < |InsertBy(s[1..], x, le)| ==> le(s[0], InsertBy(s[1..], x, le)[j])
  {
    var tail := InsertBy(s[1..], x, le);
    forall j | 0 <= j < |tail| ensures le(s[0], tail[j]) {
      assert tail[j] in multiset(tail);
      if tail[j] != x {
        assert tail[j] in multiset(s[1..]);
        var k :| 0 <= k < |s[1..]| && s[1..][k] == tail[j];
        assert s[k + 1] == tail[j];
      }
    }
  }

  lemma ConsSorted<T>(h: T, tail: seq<T>, le: (T, T) -> bool)
    requires SortedBy(tail, le) && forall j :: 0 <= j < |tail| ==> le(h, tail[j])
    ensures SortedBy([h] + tail, le)
  {
    var r := [h] + tail;
    forall i, j | 0 <= i < j < |r| ensures le(r[i], r[j]) {
      if i > 0 { assert r[i] == tail[i - 1] && r[j] == tail[j - 1]; }
      else { assert r[j] == tail[j - 1]; }
    }
  }

  /** `x` placed before the head it may precede keeps a sorted sequence sorted. */
  lemma FrontSorted<T(!new)>(s: seq<T>, x: T, le: (T, T) -> bool)
    requires TotalPreorder(le) && SortedBy(s, le) && s != [] && !le(s[0], x)
    ensures SortedBy(InsertBy(s, x, le), le)
  {
    assert le(x, s[0]);
    var r := [x] + s;
    assert InsertBy(s, x, le) == r;
    forall i, j | 0 <= i < j < |r| ensures le(r[i], r[j]) {
      if i == 0 {
        if j > 1 { assert le(s[0], s[j - 1]); }
      } else {
        assert r[i] == s[i - 1] && r[j] == s[j - 1];
      }
    }
  }

  lemma {:induction false} SortBySorted<T(!new)>(s: seq<T>, le: (T, T) -> bool)
    requires TotalPreorder(le)
    ensures SortedBy(SortBy(s, le), le)
  {
    if s != [] {
      SortBySorted(s[..|s| - 1], le);
      InsertBySorted(SortBy(s[..|s| - 1], le), s[|s| - 1], le);
    }
  }

  /** The head of a sorted sequence may precede each of its elements. */
  lemma SortedHeadFirst<T(!new)>(a: seq<T>, x: T, le: (T, T) -> bool)
    requires TotalPreorder(le) && SortedBy(a, le) && x in a
    ensures le(a[0], x)
  {
    var k :| 0 <= k < |a| && a[k] == x;
    if k == 0 {
      assert le(x, x) || le(x, x);
    }
  }

  /** Under an antisymmetric total order a multiset has one sorted arrangement. */
  lemma {:induction false} SortedUnique<T(!new)>(a: seq<T>, b: seq<T>, le: (T, T) -> bool)
    requires TotalPreorder(le) && Antisymmetric(le)
    requires SortedBy(a, le) && SortedBy(b, le) && multiset(a) == multiset(b)
    ensures a == b
  {
    assert |a| == |multiset(a)| == |multiset(b)| == |b|;
    if a != [] {
      SortedHeadsEqual(a, b, le);
      TailsSameMultiset(a, b);
      SortedTail(a, le);
      SortedTail(b, le);
      SortedUnique(a[1..], b[1..], le);
      assert a == [a[0]] + a[1..] && b == [b[0]] + b[1..];
    }
  }

  lemma SortedHeadsEqual<T(!new)>(a: seq<T>, b: seq<T>, le: (T, T) -> bool)
    requires TotalPreorder(le) && Antisymmetric(le)
    requires SortedBy(a, le) && SortedBy(b, le) && multiset(a) == multiset(b) && a != [] && b != []
    ensures a[0] == b[0]
  {
    assert a[0] in multiset(b) && b[0] in multiset(a);
    SortedHeadFirst(b, a[0], le);
    SortedHeadFirst(a, b[0], le);
  }

  lemma TailsSameMultiset<T>(a: seq<T>, b: seq<T>)
    requires a != [] && b != [] && a[0] == b[0] && multiset(a) == multiset(b)
    ensures multiset(a[1..]) == multiset(b[1..])
  {
    assert a == [a[0]] + a[1..] && b == [b[0]] + b[1..];
    assert multiset(a[1..]) == multiset(a) - multiset{a[0]};
    assert multiset(b[1..]) == multiset(b) - multiset{b[0]};
  }

  lemma SortedTail<T>(a: seq<T>, le: (T, T) -> bool)
    requires SortedBy(a, le) && a != []
    ensures SortedBy(a[1..], le)
  {
    forall i, j | 0 <= i < j < |a[1..]| ensures le(a[1..][i], a[1..][j]) {
      assert a[1..][i] == a[i + 1] && a[1..][j] == a[j + 1];
    }
  }

  /** Sorting forgets the input order: rearrangements sort alike. */
  lemma SortByCanonical<T(!new)>(s: seq<T>, t: seq<T>, le: (T, T) -> bool)
    requires TotalPreorder(le) && Antisymmetric(le) && multiset(s) == multiset(t)
    ensures SortBy(s, le) == SortBy(t, le)
  {
    SortBySorted(s, le);
    SortBySorted(t, le);
    SortedUnique(SortBy(s, le), SortBy(t, le), le);
  }

  /** Sorting an already sorted sequence changes nothing. */
  lemma SortByOfSorted<T(!new)>(s: seq<T>, le: (T, T) -> bool)
    requires TotalPreorder(le) && Antisymmetric(le) && SortedBy(s, le)
    ensures SortBy(s, le) == s
  {
    SortBySorted(s, le);
    SortedUnique(SortBy(s, le), s, le);
  }

  /** `a` and `b` tie under `le`: each may precede the other (equal sort keys). */
  predicate Tied<T>(a: T, b: T, le: (T, T) -> bool)
  {
    le(a, b) && le(b, a)
  }

  /** The elements of `s` that tie with `x`, in their order in `s`. */
  function Ties<T>(s: seq<T>, x: T, le: (T, T) -> bool): seq<T>
  {
    if s == [] then [] else (if Tied(s[0], x, le) then [s[0]] else []) + Ties(s[1..], x, le)
  }

  lemma {:induction false} TiesAppend<T>(s: seq<T>, y: T, x: T, le: (T, T) -> bool)
    ensures Ties(s + [y], x, le) == Ties(s, x, le) + (if Tied(y, x, le) then [y] else [])
  {
    if s != [] {
      assert (s + [y])[1..] == s[1..] + [y];
      TiesAppend(s[1..], y, x, le);
    }
  }

  lemma {:induction false} NoTies<T>(s: seq<T>, x: T, le: (T, T) -> bool)
    requires forall i :: 0 <= i < |s| ==> !Tied(s[i], x, le)
    ensures Ties(s, x, le) == []
  {
    if s != [] {
      NoTies(s[1..], x, le);
    }
  }

  lemma TiesCons<T>(h: T, t: seq<T>, x: T, le: (T, T) -> bool)
    ensures Ties([h] + t, x, le) == (if Tied(h, x, le) then [h] else []) + Ties(t, x, le)
  {
    assert ([h] + t)[1..] == t;
  }

  lemma InsertByPast<T>(s: seq<T>, y: T, le: (T, T) -> bool)
    requires s != [] && le(s[0], y)
    ensures InsertBy(s, y, le) == [s[0]] + InsertBy(s[1..], y, le)
  {
  }

  /** Where `y` is inserted past the head, the head's tie comes first. */
  lemma InsertPastHead<T>(s: seq<T>, y: T, x: T, le: (T, T) -> bool, tail: seq<T>)
    requires s != [] && le(s[0], y)
    requires Ties(InsertBy(s[1..], y, le), x, le) == Ties(s[1..], x, le) + tail
    ensures Ties(InsertBy(s, y, le), x, le) == Ties(s, x, le) + tail
  {
    var t := InsertBy(s[1..], y, le);
    var head := if Tied(s[0], x, le) then [s[0]] else [];
    InsertByPast(s, y, le);
    TiesCons(s[0], t, x, le);
    assert Ties(s, x, le) == head + Ties(s[1..], x, le);
    AppendAssoc(head, Ties(s[1..], x, le), tail);
  }

  lemma AppendAssoc<T>(a: seq<T>, b: seq<T>, c: seq<T>)
    ensures a + (b + c) == (a + b) + c
  {
  }

  /** Where `y` is inserted before the head of a sorted sequence, nothing after it ties with it. */
  lemma NoTiesAfter<T(!new)>(s: seq<T>, y: T, x: T, le: (T, T) -> bool)
    requires TotalPreorder(le) && SortedBy(s, le)
    requires s != [] && !le(s[0], y) && Tied(y, x, le)
    ensures Ties(s, x, le) == []
  {
    forall i | 0 <= i < |s| ensures !Tied(s[i], x, le) {
      if i > 0 { assert le(s[0], s[i]); }
    }
    NoTies(s, x, le);
  }

  /**
   * Inserting `y` into a sorted sequence puts it after every element it
   * ties with and before every later one, so among the ties of `x` it
   * comes last.
   */
  lemma {:induction false} InsertByTies<T(!new)>(s: seq<T>, y: T, x: T, le: (T, T) -> bool)
    requires TotalPreorder(le) && SortedBy(s, le)
    ensures Ties(InsertBy(s, y, le), x, le) == Ties(s, x, le) + (if Tied(y, x, le) then [y] else [])
  {
    var tail := if Tied(y, x, le) then [y] else [];
    if s == [] {
      assert Ties([y], x, le) == tail + Ties([y][1..], x, le);
    } else if le(s[0], y) {
      SortedTail(s, le);
      InsertByTies(s[1..], y, x, le);
      InsertPastHead(s, y, x, le, tail);
    } else {
      assert InsertBy(s, y, le) == [y] + s;
      assert ([y] + s)[1..] == s;
      if Tied(y, x, le) {
        NoTiesAfter(s, y, x, le);
      }
    }
  }

  /**
   * `sorted` is stable: the elements that tie with any `x` come out in
   * the order they went in. With `reverse=True` this still holds, since
   * reversing is expressed through `le` and not by reversing the result.
   */
  lemma {:induction false} SortByStable<T(!new)>(s: seq<T>, x: T, le: (T, T) -> bool)
    requires TotalPreorder(le)
    ensures Ties(SortBy(s, le), x, le) == Ties(s, x, le)
  {
    if s != [] {
      var init, last := s[..|s| - 1], s[|s| - 1];
      assert s == init + [last];
      SortByStable(init, x, le);
      SortBySorted(init, le);
      InsertByTies(SortBy(init, le), last, x, le);
      TiesAppend(init, last, x, le);
    }
  }

  function IntLe(a: int, b: int): bool
  {
    a <= b
  }

  lemma IntLeIsTotalOrder()
    ensures TotalPreorder(IntLe) && Antisymmetric(IntLe)
  {
  }

  predicate Ascending(s: seq<int>)
  {
    forall i, j :: 0 <= i < j < |s| ==> s[i] <= s[j]
  }

  /** Python's `sorted` on ints: ascending, a rearrangement, so with the same sum. */
  function SortInts(s: seq<int>): (r: seq<int>)
    ensures |r| == |s| && multiset(r) == multiset(s)
    ensures Ascending(r)
    ensures Sum(r) == Sum(s)
  {
    SumPermutation(SortBy(s, IntLe), s);
    IntLeIsTotalOrder();
    SortBySorted(s, IntLe);
    var r := SortBy(s, IntLe);
    assert SortedBy(r, IntLe);
    r
  }

  /** Sorting ascending ints changes nothing. */
  lemma SortIntsOfAscending(s: seq<int>)
    requires Ascending(s)
    ensures SortInts(s) == s
  {
    IntLeIsTotalOrder();
    assert SortedBy(s, IntLe);
    SortByOfSorted(s, IntLe);
  }

  /** The last element of an ascending sequence is its maximum. */
  lemma SortedLastIsMax(s: seq<int>)
    requires |s| > 0 && Ascending(s)
    ensures s[|s| - 1] == MaxInt(s) && s[0] == MinInt(s)
  {
    var last := s[|s| - 1];
    forall x | x in s ensures x <= last && s[0] <= x {
      var k :| 0 <= k < |s| && s[k] == x;
    }
    MaxIsUnique(s, last);
    MinIsUnique(s, s[0]);
  }

  /** An element of a sequence lies between the first and the last of its ascending rearrangement. */
  lemma WithinRearranged(s: seq<int>, t: seq<int>, x: int)
    requires x in s && multiset(s) == multiset(t) && Ascending(t)
    ensures |t| > 0 && t[0] <= x <= t[|t| - 1]
  {
    assert x in multiset(t);
    var k :| 0 <= k < |t| && t[k] == x;
  }

  /**
   * The last element of any part lies between the first and the last
   * element of the ascending rearrangement of the concatenation.
   */
  lemma LastWithinRearranged(ss: seq<seq<int>>, t: seq<int>, i: nat)
    requires i < |ss| && |ss[i]| > 0
    requires multiset(t) == multiset(Concat(ss)) && Ascending(t)
    ensures |t| > 0 && t[0] <= ss[i][|ss[i]| - 1] <= t[|t| - 1]
  {
    InConcat(ss, i, |ss[i]| - 1);
    WithinRearranged(Concat(ss), t, ss[i][|ss[i]| - 1]);
  }

  /** The maximum of a sequence is the last element of its ascending rearrangement. */
  lemma MaxOfRearranged(s: seq<int>, t: seq<int>)
    requires multiset(s) == multiset(t) && Ascending(t) && |t| > 0
    ensures |s| > 0 && MaxInt(s) == t[|t| - 1]
  {
    assert |s| == |multiset(s)| == |multiset(t)| == |t|;
    var last := t[|t| - 1];
    forall x | x in s ensures x <= last {
      assert x in multiset(t);
      var k :| 0 <= k < |t| && t[k] == x;
    }
    assert last in multiset(s);
    MaxIsUnique(s, last);
  }

  lemma MaxIsUnique(s: seq<int>, m: int)
    requires m in s && forall x :: x in s ==> x <= m
    ensures MaxInt(s) == m
  {
  }

  lemma MinIsUnique(s: seq<int>, m: int)
    requires m in s && forall x :: x in s ==> m <= x
    ensures MinInt(s) == m
  {
  }

  // ---------------------------------------------------------------------
  // Lexicographic order (Python's comparison of tuples and strings)
  // ---------------------------------------------------------------------

  ghost predicate StrictTotal<T(!new)>(lt: (T, T) -> bool)
  {
    && (forall a :: !lt(a, a))
    && (forall a, b :: a != b ==> lt(a, b) || lt(b, a))
    && (forall a, b, c :: lt(a, b) && lt(b, c) ==> lt(a, c))
  }

  /** The first differing element decides; a proper prefix is smaller. */
  predicate LexLess<T(==)>(a: seq<T>, b: seq<T>, lt: (T, T) -> bool)
  {
    if a == [] then b != []
    else if b == [] then false
    else if a[0] == b[0] then LexLess(a[1..], b[1..], lt)
    else lt(a[0], b[0])
  }

  lemma {:induction false} LexTransitive<T(!new)>(a: seq<T>, b: seq<T>, c: seq<T>, lt: (T, T) -> bool)
    requires StrictTotal(lt) && LexLess(a, b, lt) && LexLess(b, c, lt)
    ensures LexLess(a, c, lt)
  {
    if a != [] && a[0] == b[0] && b[0] == c[0] {
      LexTransitive(a[1..], b[1..], c[1..], lt);
    }
  }

  lemma {:induction false} LexTrichotomy<T(!new)>(a: seq<T>, b: seq<T>, lt: (T, T) -> bool)
    requires StrictTotal(lt)
    ensures a == b || LexLess(a, b, lt) || LexLess(b, a, lt)
  {
    if a != [] && b != [] && a[0] == b[0] {
      LexTrichotomy(a[1..], b[1..], lt);
      if a[1..] == b[1..] {
        assert a == [a[0]] + a[1..] && b == [b[0]] + b[1..];
      }
    }
  }

  lemma {:induction false} LexAsymmetric<T(!new)>(a: seq<T>, b: seq<T>, lt: (T, T) -> bool)
    requires StrictTotal(lt) && LexLess(a, b, lt)
    ensures !LexLess(b, a, lt) && a != b
  {
    if a != [] && b != [] && a[0] == b[0] {
      LexAsymmetric(a[1..], b[1..], lt);
    }
  }

  function CharLt(a: char, b: char): bool
  {
    a < b
  }

  function RealLt(a: real, b: real): bool
  {
    a < b
  }

  /** Python's `<=` on strings. */
  function StrLe(a: string, b: string): bool
  {
    a == b || LexLess(a, b, CharLt)
  }

  /** Python's `<` on tuples of numbers and bools, a sort key. */
  predicate KeyLess(a: seq<real>, b: seq<real>)
  {
    LexLess(a, b, RealLt)
  }

  predicate KeyLe(a: seq<real>, b: seq<real>)
  {
    a == b || KeyLess(a, b)
  }

  lemma {:induction false} LexLeIsTotalOrder<T(!new)>(lt: (T, T) -> bool, le: (seq<T>, seq<T>) -> bool)
    requires StrictTotal(lt)
    requires forall a, b :: le(a, b) == (a == b || LexLess(a, b, lt))
    ensures TotalPreorder(le) && Antisymmetric(le)
  {
    forall a, b ensures le(a, b) || le(b, a) {
      LexTrichotomy(a, b, lt);
    }
    forall a, b, c | le(a, b) && le(b, c) ensures le(a, c) {
      if a != b && b != c {
        LexTransitive(a, b, c, lt);
      }
    }
    forall a, b | le(a, b) && le(b, a) ensures a == b {
      if a != b {
        LexAsymmetric(a, b, lt);
      }
    }
  }

  lemma StrLeIsTotalOrder()
    ensures TotalPreorder(StrLe) && Antisymmetric(StrLe)
  {
    assert StrictTotal(CharLt);
    LexLeIsTotalOrder(CharLt, StrLe);
  }

  lemma KeyOrderFacts()
    ensures StrictTotal(RealLt)
    ensures forall a, b :: KeyLe(a, b) || KeyLe(b, a)
    ensures forall a, b, c :: KeyLe(a, b) && KeyLe(b, c) ==> KeyLe(a, c)
    ensures forall a, b :: KeyLess(a, b) ==> !KeyLess(b, a) && !KeyLe(b, a)
    ensures forall a, b :: !KeyLess(a, b) ==> KeyLe(b, a)
  {
    assert StrictTotal(RealLt);
    forall a, b ensures KeyLe(a, b) || KeyLe(b, a) {
      LexTrichotomy(a, b, RealLt);
    }
    forall a, b, c | KeyLe(a, b) && KeyLe(b, c) ensures KeyLe(a, c) {
      if a != b && b != c {
        LexTransitive(a, b, c, RealLt);
      }
    }
    forall a, b | KeyLess(a, b) ensures !KeyLess(b, a) && !KeyLe(b, a) {
      LexAsymmetric(a, b, RealLt);
    }
    forall a, b | !KeyLess(a, b) ensures KeyLe(b, a) {
      LexTrichotomy(a, b, RealLt);
    }
  }
}
