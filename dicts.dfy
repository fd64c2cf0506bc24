/**
 * Python dicts, whose iteration order the solver observes (`list(d.values())`
 * is compared when guesses are deduplicated): a dict is its keys in
 * first-insertion order together with the value stored under each key.
 * Groupings map masks to word lists and are built by
 * `setdefault(key, []).append(x)` in a loop.
 */
module Dicts {
  import opened Common
  import opened Collections

  datatype Dict<K(==), V> = Dict(keys: seq<K>, entries: map<K, V>)

  /** Every key is listed once, and exactly the keys with an entry are listed. */
  predicate Valid<K(==), V>(d: Dict<K, V>)
  {
    Distinct(d.keys) && d.entries.Keys == Elems(d.keys)
  }

  /** Python's `len(d)`. */
  function Len<K(==), V>(d: Dict<K, V>): nat
  {
    |d.keys|
  }

  /** `d[k] = v`: an existing key keeps its place, a new key goes last. */
  function Put<K(==), V>(d: Dict<K, V>, k: K, v: V): (r: Dict<K, V>)
    ensures Valid(d) ==> Valid(r)
  {
    Dict(if k in d.entries then d.keys else d.keys + [k], d.entries[k := v])
  }

  /** Storing under a new key appends it and leaves the other entries alone. */
  lemma PutFresh<K, V>(d: Dict<K, V>, k: K, v: V)
    requires Valid(d) && k !in d.entries
    ensures Put(d, k, v).keys == d.keys + [k] && Put(d, k, v).entries[k] == v
    ensures forall i :: 0 <= i < |d.keys| ==> d.keys[i] in d.entries && Put(d, k, v).entries[d.keys[i]] == d.entries[d.keys[i]]
  {
    forall i | 0 <= i < |d.keys| ensures d.keys[i] in d.entries {
      assert d.keys[i] in Elems(d.keys);
    }
  }

  /** The list stored under `k`, or the empty list (`d.setdefault(k, [])`). */
  function Bucket<K(==), X>(d: Dict<K, seq<X>>, k: K): seq<X>
  {
    if k in d.entries then d.entries[k] else []
  }

  /** `d.setdefault(k, v)` for its effect on `d`: a missing key is added with `v`. */
  function SetDefault<K(==), V>(d: Dict<K, V>, k: K, v: V): (r: Dict<K, V>)
    ensures Valid(d) ==> Valid(r)
    ensures k in r.entries
  {
    if k in d.entries then d else Put(d, k, v)
  }

  /** `d.setdefault(k, []).append(x)`. */
  function AppendAt<K(==), X>(d: Dict<K, seq<X>>, k: K, x: X): (r: Dict<K, seq<X>>)
    ensures Valid(d) ==> Valid(r)
  {
    Put(d, k, Bucket(d, k) + [x])
  }

  /** Appending to the list `setdefault` returned is `AppendAt`. */
  lemma SetDefaultAppend<K, X>(d: Dict<K, seq<X>>, k: K, x: X)
    ensures Put(SetDefault(d, k, []), k, SetDefault(d, k, []).entries[k] + [x]) == AppendAt(d, k, x)
  {
  }

  /** Python's `list(d.values())`: the values in key order. */
  function Values<K(==), V>(d: Dict<K, V>): (r: seq<V>)
    requires Valid(d)
    ensures |r| == Len(d)
  {
    seq(|d.keys|, i requires 0 <= i < |d.keys| => d.entries[d.keys[i]])
  }

  /** `[len(b) for b in d.values()]`. */
  function Sizes<K(==), X>(d: Dict<K, seq<X>>): (r: seq<int>)
    requires Valid(d)
    ensures |r| == Len(d)
  {
    seq(|d.keys|, i requires 0 <= i < |d.keys| => |d.entries[d.keys[i]]|)
  }

  /** Everything stored in some bucket: `set(w for b in d.values() for w in b)`. */
  function Members<K(==), X>(d: Dict<K, seq<X>>): set<X>
  {
    set k, x | k in d.entries && x in d.entries[k] :: x
  }

  /** The size of every entry is among the sizes. */
  lemma SizesOfEntries<K, X>(d: Dict<K, seq<X>>)
    requires Valid(d)
    ensures forall k :: k in d.entries ==> |d.entries[k]| in Sizes(d)
  {
    forall k | k in d.entries ensures |d.entries[k]| in Sizes(d) {
      var j :| 0 <= j < |d.keys| && d.keys[j] == k;
      assert Sizes(d)[j] == |d.entries[k]|;
    }
  }

  /** An item is stored in the dict exactly when it is in one of its values. */
  lemma MembersOfValues<K, X>(d: Dict<K, seq<X>>, x: X)
    requires Valid(d)
    ensures x in Members(d) <==> exists i :: 0 <= i < Len(d) && x in Values(d)[i]
  {
    if x in Members(d) {
      var k :| k in d.entries && x in d.entries[k];
      var i :| 0 <= i < |d.keys| && d.keys[i] == k;
      assert x in Values(d)[i];
    }
  }

  /** Dicts with the same values in the same order have the same sizes and members. */
  lemma SameValues<K, X>(d: Dict<K, seq<X>>, e: Dict<K, seq<X>>)
    requires Valid(d) && Valid(e) && Values(d) == Values(e)
    ensures Sizes(d) == Sizes(e) && Members(d) == Members(e)
  {
    assert Len(d) == Len(e);
    forall i | 0 <= i < Len(d) ensures Sizes(d)[i] == Sizes(e)[i] {
      assert Sizes(d)[i] == |Values(d)[i]| && Sizes(e)[i] == |Values(e)[i]|;
    }
    forall x ensures x in Members(d) <==> x in Members(e) {
      MembersOfValues(d, x);
      MembersOfValues(e, x);
    }
  }

  // ---------------------------------------------------------------------
  // The grouping loop
  // ---------------------------------------------------------------------

  /** The distinct keys of `ks`, in order of first appearance. */
  function FirstSeen<K(==)>(ks: seq<K>): (r: seq<K>)
    ensures Distinct(r) && Elems(r) == Elems(ks)
  {
    if ks == [] then []
    else
      var init := ks[..|ks| - 1];
      var r := FirstSeen(init);
      assert Elems(ks) == Elems(init) + {ks[|ks| - 1]} by {
        assert ks == init + [ks[|ks| - 1]];
      }
      if ks[|ks| - 1] in r then r else r + [ks[|ks| - 1]]
  }

  /** The items whose key is `k`, in their original order. */
  function Pick<K(==), X>(xs: seq<X>, ks: seq<K>, k: K): (r: seq<X>)
    requires |xs| == |ks|
    ensures |r| <= |xs|
  {
    if xs == [] then []
    else Pick(xs[..|xs| - 1], ks[..|ks| - 1], k) + (if ks[|ks| - 1] == k then [xs[|xs| - 1]] else [])
  }

  /**
   * The dict the grouping loop builds when item `xs[i]` is filed under key
   * `ks[i]`: one bucket per distinct key, in order of first appearance,
   * holding that key's items in input order.
   */
  function GroupBy<K(==), X>(xs: seq<X>, ks: seq<K>): (d: Dict<K, seq<X>>)
    requires |xs| == |ks|
    ensures Valid(d)
  {
    Dict(FirstSeen(ks), map k | k in Elems(ks) :: Pick(xs, ks, k))
  }

  lemma PickSnoc<K, X>(xs: seq<X>, ks: seq<K>, x: X, k: K, j: K)
    requires |xs| == |ks|
    ensures Pick(xs + [x], ks + [k], j) == Pick(xs, ks, j) + (if k == j then [x] else [])
  {
    assert (xs + [x])[..|xs|] == xs;
    assert (ks + [k])[..|ks|] == ks;
  }

  /** A key that never occurs collects nothing. */
  lemma {:induction false} PickNone<K, X>(xs: seq<X>, ks: seq<K>, k: K)
    requires |xs| == |ks| && k !in ks
    ensures Pick(xs, ks, k) == []
  {
    if xs != [] {
      var n := |xs| - 1;
      assert k !in ks[..n];
      PickNone(xs[..n], ks[..n], k);
    }
  }

  lemma FirstSeenSnoc<K>(ks: seq<K>, k: K)
    ensures FirstSeen(ks + [k]) == if k in ks then FirstSeen(ks) else FirstSeen(ks) + [k]
    ensures Elems(ks + [k]) == Elems(ks) + {k}
  {
    var s := ks + [k];
    assert s[..|s| - 1] == ks && s[|s| - 1] == k;
    assert k in FirstSeen(ks) <==> k in ks by {
      assert k in Elems(FirstSeen(ks)) <==> k in Elems(ks);
    }
  }

  /** Filing one more item is one `setdefault(k, []).append(x)`. */
  lemma GroupBySnoc<K, X>(xs: seq<X>, ks: seq<K>, x: X, k: K)
    requires |xs| == |ks|
    ensures GroupBy(xs + [x], ks + [k]) == AppendAt(GroupBy(xs, ks), k, x)
  {
    var d := GroupBy(xs, ks);
    var e := GroupBy(xs + [x], ks + [k]);
    var r := AppendAt(d, k, x);
    FirstSeenSnoc(ks, k);
    assert e.keys == r.keys;
    assert e.entries.Keys == r.entries.Keys == Elems(ks + [k]);
    forall j | j in Elems(ks + [k])
      ensures e.entries[j] == r.entries[j]
    {
      PickSnoc(xs, ks, x, k, j);
      if j == k && k !in Elems(ks) {
        PickNone(xs, ks, k);
      }
    }
    assert e.entries == r.entries;
  }

  /** An item is in the bucket of `k` exactly when it was filed under `k`. */
  lemma {:induction false} PickMember<K, X>(xs: seq<X>, ks: seq<K>, k: K, x: X)
    requires |xs| == |ks|
    ensures x in Pick(xs, ks, k) <==> exists i :: 0 <= i < |xs| && xs[i] == x && ks[i] == k
  {
    if xs != [] {
      var n := |xs| - 1;
      PickMember(xs[..n], ks[..n], k, x);
      if x in Pick(xs[..n], ks[..n], k) {
        var i :| 0 <= i < n && xs[..n][i] == x && ks[..n][i] == k;
        assert xs[i] == x && ks[i] == k;
      }
      if exists i :: 0 <= i < |xs| && xs[i] == x && ks[i] == k {
        var i :| 0 <= i < |xs| && xs[i] == x && ks[i] == k;
        if i < n {
          assert xs[..n][i] == x && ks[..n][i] == k;
        }
      }
    }
  }

  /**
   * Every item lands in the bucket of its own key, and no bucket is empty.
   */
  lemma GroupByBuckets<K, X>(xs: seq<X>, ks: seq<K>)
    requires |xs| == |ks|
    ensures forall i :: 0 <= i < |xs| ==> ks[i] in GroupBy(xs, ks).entries && xs[i] in GroupBy(xs, ks).entries[ks[i]]
    ensures forall k :: k in GroupBy(xs, ks).entries ==> GroupBy(xs, ks).entries[k] != []
  {
    var d := GroupBy(xs, ks);
    forall i | 0 <= i < |xs|
      ensures ks[i] in d.entries && xs[i] in d.entries[ks[i]]
    {
      PickMember(xs, ks, ks[i], xs[i]);
    }
    forall k | k in d.entries
      ensures d.entries[k] != []
    {
      var i :| 0 <= i < |ks| && ks[i] == k;
      PickMember(xs, ks, k, xs[i]);
    }
  }

  /** The bucket of `k`, read through the dict, is its picked items. */
  lemma GroupByBucket<K, X>(xs: seq<X>, ks: seq<K>, k: K)
    requires |xs| == |ks|
    ensures Bucket(GroupBy(xs, ks), k) == Pick(xs, ks, k)
  {
    if k !in ks {
      PickNone(xs, ks, k);
    }
  }

  // ---------------------------------------------------------------------
  // Sizes and members of a grouping
  // ---------------------------------------------------------------------

  lemma {:induction false} SumUpdate(s: seq<int>, j: int, v: int)
    requires 0 <= j < |s|
    ensures Sum(s[j := v]) == Sum(s) - s[j] + v
  {
    if j > 0 {
      assert s[j := v][1..] == s[1..][j - 1 := v];
      SumUpdate(s[1..], j - 1, v);
    }
  }

  /** Every append adds one to the total of the bucket sizes. */
  lemma SumSizesAppendAt<K, X>(d: Dict<K, seq<X>>, k: K, x: X)
    requires Valid(d)
    ensures Sum(Sizes(AppendAt(d, k, x))) == Sum(Sizes(d)) + 1
  {
    var r := AppendAt(d, k, x);
    if k in d.entries {
      var j := IndexOf(d.keys, k);
      assert r.keys == d.keys;
      forall i | 0 <= i < |d.keys| ensures Sizes(r)[i] == Sizes(d)[j := |d.entries[k]| + 1][i] {
        if i != j {
          assert d.keys[i] != k;
        }
      }
      assert Sizes(r) == Sizes(d)[j := |d.entries[k]| + 1];
      SumUpdate(Sizes(d), j, |d.entries[k]| + 1);
    } else {
      assert Sizes(r) == Sizes(d) + [1];
      SumAppend(Sizes(d), [1]);
    }
  }

  /** The bucket sizes of a grouping add up to the number of items. */
  lemma {:induction false} GroupBySizes<K, X>(xs: seq<X>, ks: seq<K>)
    requires |xs| == |ks|
    ensures Sum(Sizes(GroupBy(xs, ks))) == |xs|
  {
    if xs != [] {
      var n := |xs| - 1;
      GroupBySizes(xs[..n], ks[..n]);
      assert xs == xs[..n] + [xs[n]] && ks == ks[..n] + [ks[n]];
      GroupBySnoc(xs[..n], ks[..n], xs[n], ks[n]);
      SumSizesAppendAt(GroupBy(xs[..n], ks[..n]), ks[n], xs[n]);
    }
  }

  /** A grouping holds exactly the items it was built from. */
  lemma GroupByMembers<K, X>(xs: seq<X>, ks: seq<K>)
    requires |xs| == |ks|
    ensures Members(GroupBy(xs, ks)) == Elems(xs)
  {
    var d := GroupBy(xs, ks);
    GroupByBuckets(xs, ks);
    forall x | x in Members(d) ensures x in xs {
      var k :| k in d.entries && x in d.entries[k];
      PickMember(xs, ks, k, x);
    }
    forall x | x in xs ensures x in Members(d) {
      var i :| 0 <= i < |xs| && xs[i] == x;
      assert x in d.entries[ks[i]];
    }
  }
}
