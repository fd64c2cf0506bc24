/**
 * `gameplay/data.py`: the solution space as it is cached on disk. `jsonify`
 * replaces every mask by its base-3 hash; the JSON writer turns those
 * integer keys into decimal strings; `unjsonify` reads each key back with
 * `Mask.numbered(p)`, which applies `int(p)` and keeps five base-3 digits.
 * The file itself (`fetch_cache`, `save_cache`) is not part of this model:
 * `Written` stands for a dump followed by a load.
 */
module Data {
  import opened Common
  import opened Collections
  import opened Dicts
  import opened Masks
  import opened Engines
  import Strategies

  // ---------------------------------------------------------------------
  // Re-keying a dict (`{f(k): v for k, v in d.items()}`)
  // ---------------------------------------------------------------------

  /**
   * The comprehension over the first `n` items: each item is stored under
   * `f(k)`; a key met twice keeps its first place and takes the later value.
   */
  function Rekey<K(==), J(==), V>(d: Dict<K, V>, f: K -> J, n: nat): (r: Dict<J, V>)
    requires Valid(d) && n <= Len(d)
    ensures Valid(r)
  {
    if n == 0 then Dict([], map[])
    else
      assert d.keys[n - 1] in Elems(d.keys);
      Put(Rekey(d, f, n - 1), f(d.keys[n - 1]), d.entries[d.keys[n - 1]])
  }

  /** `f` sends distinct keys of `d` to distinct keys. */
  ghost predicate InjectiveOn<K, J, V>(d: Dict<K, V>, f: K -> J)
  {
    forall a, b :: a in d.entries && b in d.entries && f(a) == f(b) ==> a == b
  }

  /** With `f` one-to-one on the keys, every item keeps its place and its value under its new key. */
  lemma RekeyShape<K, J, V>(d: Dict<K, V>, f: K -> J, n: nat)
    requires Valid(d) && n <= Len(d) && InjectiveOn(d, f)
    ensures var r := Rekey(d, f, n);
            && Len(r) == n
            && forall i :: 0 <= i < n ==> r.keys[i] == f(d.keys[i]) && r.entries[r.keys[i]] == d.entries[d.keys[i]]
  {
    RekeyOrder(d, f, n);
    RekeyValues(d, f, n);
  }

  /** With `f` one-to-one on the keys, every value is found under the image of its key. */
  lemma RekeyKeeps<K, J, V>(d: Dict<K, V>, f: K -> J)
    requires Valid(d) && InjectiveOn(d, f)
    ensures var r := Rekey(d, f, Len(d));
            && Len(r) == Len(d)
            && forall k :: k in d.entries ==> f(k) in r.entries && r.entries[f(k)] == d.entries[k]
  {
    RekeyShape(d, f, Len(d));
    var r := Rekey(d, f, Len(d));
    forall k | k in d.entries ensures f(k) in r.entries && r.entries[f(k)] == d.entries[k] {
      var i :| 0 <= i < |d.keys| && d.keys[i] == k;
      assert r.keys[i] == f(k);
    }
  }

  /** With `f` one-to-one on the keys, the `i`-th key of the result is the image of the `i`-th key. */
  lemma {:induction false} RekeyOrder<K, J, V>(d: Dict<K, V>, f: K -> J, n: nat)
    requires Valid(d) && n <= Len(d) && InjectiveOn(d, f)
    ensures Len(Rekey(d, f, n)) == n && forall i :: 0 <= i < n ==> Rekey(d, f, n).keys[i] == f(d.keys[i])
  {
    if n > 0 {
      RekeyOrder(d, f, n - 1);
      var p, k := Rekey(d, f, n - 1), d.keys[n - 1];
      RekeyFresh(d, f, n - 1);
      assert k in Elems(d.keys);
      var r := Rekey(d, f, n);
      assert r.keys == p.keys + [f(k)];
      forall i | 0 <= i < n ensures r.keys[i] == f(d.keys[i]) {
        if i < n - 1 {
          assert r.keys[i] == p.keys[i];
        }
      }
    }
  }

  /** With `f` one-to-one on the keys, each new key holds the value of the key it came from. */
  lemma {:induction false} RekeyValues<K, J, V>(d: Dict<K, V>, f: K -> J, n: nat)
    requires Valid(d) && n <= Len(d) && InjectiveOn(d, f)
    ensures forall i :: 0 <= i < n ==> f(d.keys[i]) in Rekey(d, f, n).entries && Rekey(d, f, n).entries[f(d.keys[i])] == d.entries[d.keys[i]]
  {
    if n > 0 {
      RekeyValues(d, f, n - 1);
      RekeyOrder(d, f, n - 1);
      var p, k := Rekey(d, f, n - 1), d.keys[n - 1];
      RekeyFresh(d, f, n - 1);
      assert k in Elems(d.keys);
      var r := Rekey(d, f, n);
      assert r.entries == p.entries[f(k) := d.entries[k]];
      forall i | 0 <= i < n ensures f(d.keys[i]) in r.entries && r.entries[f(d.keys[i])] == d.entries[d.keys[i]] {
        if i < n - 1 {
          assert p.keys[i] == f(d.keys[i]);
        }
      }
    }
  }

  /** The next key's image is not yet a key of the re-keyed prefix. */
  lemma RekeyFresh<K, J, V>(d: Dict<K, V>, f: K -> J, n: nat)
    requires Valid(d) && n < Len(d) && InjectiveOn(d, f)
    requires Len(Rekey(d, f, n)) == n && forall i :: 0 <= i < n ==> Rekey(d, f, n).keys[i] == f(d.keys[i])
    ensures f(d.keys[n]) !in Rekey(d, f, n).entries
  {
    var p, k := Rekey(d, f, n), d.keys[n];
    assert k in Elems(d.keys);
    forall i | 0 <= i < n ensures p.keys[i] != f(k) {
      assert d.keys[i] in Elems(d.keys);
      assert d.keys[i] != k;
    }
    assert p.entries.Keys == Elems(p.keys);
  }

  /** Every key of the re-keyed dict is the image of a key of `d`. */
  lemma {:induction false} RekeyKeys<K, J, V>(d: Dict<K, V>, f: K -> J, n: nat, j: J)
    requires Valid(d) && n <= Len(d) && j in Rekey(d, f, n).entries
    ensures exists i :: 0 <= i < n && j == f(d.keys[i])
  {
    if n > 0 && j != f(d.keys[n - 1]) {
      RekeyKeys(d, f, n - 1, j);
    }
  }

  /** Re-keying by `f` then by `g` is re-keying by `h = g ∘ f`, when `f` is one-to-one. */
  lemma RekeyTwice<K, J, L, V>(d: Dict<K, V>, f: K -> J, g: J -> L, h: K -> L)
    requires Valid(d) && InjectiveOn(d, f)
    requires forall k :: k in d.entries ==> h(k) == g(f(k))
    ensures Len(Rekey(d, f, Len(d))) == Len(d)
    ensures Rekey(Rekey(d, f, Len(d)), g, Len(d)) == Rekey(d, h, Len(d))
  {
    RekeyShape(d, f, Len(d));
    RekeyTwiceFrom(d, Rekey(d, f, Len(d)), f, g, h, Len(d));
  }

  lemma {:induction false} RekeyTwiceFrom<K, J, L, V>(d: Dict<K, V>, e: Dict<J, V>, f: K -> J, g: J -> L, h: K -> L, n: nat)
    requires Valid(d) && Valid(e) && n <= Len(d) == Len(e)
    requires forall i :: 0 <= i < Len(d) ==> e.keys[i] == f(d.keys[i]) && e.entries[e.keys[i]] == d.entries[d.keys[i]]
    requires forall k :: k in d.entries ==> h(k) == g(f(k))
    ensures Rekey(e, g, n) == Rekey(d, h, n)
  {
    if n > 0 {
      RekeyTwiceFrom(d, e, f, g, h, n - 1);
      var k, ek := d.keys[n - 1], e.keys[n - 1];
      assert k in Elems(d.keys);
      assert ek == f(k) && e.entries[ek] == d.entries[k];
      assert h(k) == g(ek);
      assert Rekey(e, g, n) == Put(Rekey(e, g, n - 1), g(ek), e.entries[ek]);
      assert Rekey(d, h, n) == Put(Rekey(d, h, n - 1), h(k), d.entries[k]);
    }
  }

  /** Re-keying by a function that fixes every key gives the dict back. */
  lemma RekeyIdentity<K, V>(d: Dict<K, V>, h: K -> K)
    requires Valid(d) && forall k :: k in d.entries ==> h(k) == k
    ensures Rekey(d, h, Len(d)) == d
  {
    var r := Rekey(d, h, Len(d));
    RekeyShape(d, h, Len(d));
    forall i | 0 <= i < Len(d) ensures r.keys[i] == d.keys[i] {
      assert d.keys[i] in Elems(d.keys);
    }
    assert r.keys == d.keys;
    SameItems(r, d);
  }

  /** Two dicts listing the same keys, with the same value under each, are equal. */
  lemma SameItems<K, V>(r: Dict<K, V>, d: Dict<K, V>)
    requires Valid(r) && Valid(d) && r.keys == d.keys
    requires forall i :: 0 <= i < |d.keys| ==> r.entries[d.keys[i]] == d.entries[d.keys[i]]
    ensures r == d
  {
    forall k | k in d.entries ensures k in r.entries && r.entries[k] == d.entries[k] {
      var i :| 0 <= i < |d.keys| && d.keys[i] == k;
    }
    assert r.entries == d.entries;
  }

  // ---------------------------------------------------------------------
  // Decimal keys
  // ---------------------------------------------------------------------

  predicate IsDigit(c: char)
  {
    '0' <= c <= '9'
  }

  predicate AllDigits(s: string)
  {
    forall i :: 0 <= i < |s| ==> IsDigit(s[i])
  }

  function DigitChar(d: int): (c: char)
    requires 0 <= d <= 9
    ensures IsDigit(c)
  {
    ('0' as int + d) as char
  }

  /** The decimal numeral of `n`, without leading zeros. */
  function ShowNat(n: nat): (s: string)
    ensures |s| >= 1 && AllDigits(s)
  {
    if n < 10 then [DigitChar(n)] else ShowNat(n / 10) + [DigitChar(n % 10)]
  }

  /** The number a string of digits denotes. */
  function DigitsValue(s: string): nat
    requires AllDigits(s)
  {
    if s == [] then 0
    else
      assert IsDigit(s[|s| - 1]);
      DigitsValue(s[..|s| - 1]) * 10 + (s[|s| - 1] as int - '0' as int)
  }

  /** How the JSON writer spells an integer object key. */
  function ShowInt(i: int): string
  {
    if i < 0 then "-" + ShowNat(-i) else ShowNat(i)
  }

  /** Python's `int(s)` on a numeral with an optional minus sign; anything else is a `ValueError`. */
  function ParseInt(s: string): Result<int>
  {
    if |s| >= 2 && s[0] == '-' && AllDigits(s[1..]) then Ok(0 - DigitsValue(s[1..]) as int)
    else if |s| >= 1 && AllDigits(s) then Ok(DigitsValue(s))
    else Err(ValueError)
  }

  lemma {:induction false} ShowNatValue(n: nat)
    ensures DigitsValue(ShowNat(n)) == n
  {
    if n >= 10 {
      ShowNatValue(n / 10);
      var s := ShowNat(n);
      assert s[..|s| - 1] == ShowNat(n / 10);
    }
  }

  /** Reading back the key the writer spelled gives the integer. */
  lemma ParseShowInt(i: int)
    ensures ParseInt(ShowInt(i)) == Ok(i)
  {
    var s := ShowInt(i);
    if i < 0 {
      ShowNatValue(-i);
      assert s[1..] == ShowNat(-i);
    } else {
      ShowNatValue(i);
      assert IsDigit(s[0]);
    }
  }

  // ---------------------------------------------------------------------
  // jsonify and unjsonify
  // ---------------------------------------------------------------------

  /** A grouping as `jsonify` builds it: each mask replaced by its hash. */
  type Coded = Dict<int, seq<Word>>

  /** A grouping as it is read back from the file: the object keys are strings. */
  type Stored = Dict<string, seq<Word>>

  /** The inner comprehension of `jsonify`: `{p.__hash__(): l for p, l in v.items()}`. */
  function EncodeGrouping(g: Grouping): (c: Coded)
    requires Valid(g)
    ensures Valid(c)
  {
    Rekey(g, Value, Len(g))
  }

  /** `jsonify(space)`: every word keeps its place, each grouping is encoded. */
  function Jsonify(space: Strategies.Space): (j: Dict<Word, Coded>)
    requires Strategies.WellFormed(space)
    ensures j.keys == space.keys && j.entries.Keys == space.entries.Keys
    ensures forall w :: w in j.entries ==> j.entries[w] == EncodeGrouping(space.entries[w])
  {
    Dict(space.keys, map w | w in space.entries :: EncodeGrouping(space.entries[w]))
  }

  /** Within a grouping whose masks are valid and of one length, no two buckets share a hash. */
  lemma EncodeKeepsBuckets(g: Grouping, n: nat)
    requires Valid(g) && forall m :: m in g.entries ==> ValidMask(m) && |m| == n
    ensures var c := EncodeGrouping(g);
            && Len(c) == Len(g)
            && forall m :: m in g.entries ==> Value(m) in c.entries && c.entries[Value(m)] == g.entries[m]
  {
    HashInjective(g, n);
    RekeyKeeps(g, Value);
  }

  /** The hash is one-to-one on masks with marks in 0..2 and of one length. */
  lemma HashInjective(g: Grouping, n: nat)
    requires forall m :: m in g.entries ==> ValidMask(m) && |m| == n
    ensures InjectiveOn(g, Value)
  {
    forall a, b | a in g.entries && b in g.entries && Value(a) == Value(b) ensures a == b {
      ValueInjective(a, b);
    }
  }

  /** One encoded grouping dumped and loaded: integer keys come back as their decimal spelling. */
  function WrittenGrouping(c: Coded): (s: Stored)
    requires Valid(c)
  {
    Rekey(c, ShowInt, Len(c))
  }

  /** The whole encoded space dumped to the file and loaded back. */
  function Written(j: Dict<Word, Coded>): (s: Dict<Word, Stored>)
    requires forall w :: w in j.entries ==> Valid(j.entries[w])
    ensures Valid(j) ==> Valid(s)
    ensures forall w :: w in s.entries ==> Valid(s.entries[w])
  {
    Dict(j.keys, map w | w in j.entries :: WrittenGrouping(j.entries[w]))
  }

  /** `Mask.numbered(p)` for a key `p` that `int` accepts: its five lowest base-3 digits. */
  function NumberedKey(p: string): (m: Mask)
    ensures ParseInt(p).Ok? ==> m == Digits(ParseInt(p).value, 5)
  {
    match ParseInt(p)
    case Ok(n) => Digits(n, 5)
    case Err(_) => []
  }

  /** A key given as a decimal string decodes like the integer itself. */
  lemma DecimalKeyDecodes(n: int)
    ensures NumberedKey(ShowInt(n)) == Digits(n, 5)
  {
    ParseShowInt(n);
  }

  /** The inner comprehension of `unjsonify`; `int(p)` raises `ValueError` on a key that is not a numeral. */
  function DecodeGrouping(s: Stored): (r: Result<Grouping>)
    requires Valid(s)
    ensures r.Err? ==> r.error == ValueError
  {
    if forall i :: 0 <= i < Len(s) ==> ParseInt(s.keys[i]).Ok? then Ok(Rekey(s, NumberedKey, Len(s)))
    else Err(ValueError)
  }

  /** A key that `int` rejects makes the whole grouping fail to decode. */
  lemma BadKeyRaises(s: Stored, i: nat)
    requires Valid(s) && i < Len(s) && ParseInt(s.keys[i]).Err?
    ensures DecodeGrouping(s) == Err(ValueError)
  {
  }

  /** Every mask decoded from the file has five marks. */
  lemma DecodedMasksHaveFive(s: Stored, m: Mask)
    requires Valid(s) && DecodeGrouping(s).Ok? && m in DecodeGrouping(s).value.entries
    ensures |m| == 5 && ValidMask(m)
  {
    RekeyKeys(s, NumberedKey, Len(s), m);
  }

  /** `unjsonify`: every word keeps its place; a key that is not a numeral raises `ValueError`. */
  function Unjsonify(j: Dict<Word, Stored>): (r: Result<Strategies.Space>)
    requires forall w :: w in j.entries ==> Valid(j.entries[w])
    ensures r.Err? <==> exists w :: w in j.entries && DecodeGrouping(j.entries[w]).Err?
    ensures r.Ok? ==> r.value.keys == j.keys && r.value.entries.Keys == j.entries.Keys
    ensures r.Ok? ==> forall w :: w in j.entries ==> r.value.entries[w] == DecodeGrouping(j.entries[w]).value
    ensures r.Ok? && Valid(j) ==> Strategies.WellFormed(r.value)
  {
    if forall w :: w in j.entries ==> DecodeGrouping(j.entries[w]).Ok? then Ok(Dict(j.keys, DecodedEntries(j)))
    else Err(ValueError)
  }

  /** The decoded grouping of every word, when all of them decode. */
  function DecodedEntries(j: Dict<Word, Stored>): map<Word, Grouping>
    requires forall w :: w in j.entries ==> Valid(j.entries[w]) && DecodeGrouping(j.entries[w]).Ok?
  {
    map w | w in j.entries :: DecodeGrouping(j.entries[w]).value
  }

  // ---------------------------------------------------------------------
  // The round trip
  // ---------------------------------------------------------------------

  /** Every mask of every grouping has five marks in 0..2, as Wordle masks do. */
  predicate FiveMarkMasks(space: Strategies.Space)
  {
    forall w, m :: w in space.entries && m in space.entries[w].entries ==> ValidMask(m) && |m| == 5
  }

  /** The spelling the file gives a mask's key. */
  function StoredKey(m: Mask): string
  {
    ShowInt(Value(m))
  }

  /** A mask read back from the file. */
  function ReadBack(m: Mask): Mask
  {
    NumberedKey(StoredKey(m))
  }

  /** A grouping with five-mark masks is read back as it was written. */
  lemma GroupingRoundTrip(g: Grouping)
    requires Valid(g) && forall m :: m in g.entries ==> ValidMask(m) && |m| == 5
    ensures DecodeGrouping(WrittenGrouping(EncodeGrouping(g))) == Ok(g)
  {
    WrittenIsStoredKeys(g);
    ReadBackFixes(g);
    RekeyTwice(g, StoredKey, NumberedKey, ReadBack);
    RekeyIdentity(g, ReadBack);
  }

  /** Written to the file, a grouping is keyed by the spelled hashes of its masks, all numerals. */
  lemma WrittenIsStoredKeys(g: Grouping)
    requires Valid(g) && forall m :: m in g.entries ==> ValidMask(m) && |m| == 5
    ensures var s := WrittenGrouping(EncodeGrouping(g));
            && s == Rekey(g, StoredKey, Len(g))
            && forall i :: 0 <= i < Len(s) ==> ParseInt(s.keys[i]).Ok?
  {
    HashInjective(g, 5);
    RekeyTwice(g, Value, ShowInt, StoredKey);
    WrittenKeysParse(EncodeGrouping(g));
  }

  /** Every key of a written grouping is a numeral. */
  lemma WrittenKeysParse(c: Coded)
    requires Valid(c)
    ensures var s := WrittenGrouping(c);
            forall i :: 0 <= i < Len(s) ==> ParseInt(s.keys[i]).Ok?
  {
    forall a, b | a in c.entries && b in c.entries && ShowInt(a) == ShowInt(b) ensures a == b {
      ParseShowInt(a);
      ParseShowInt(b);
    }
    var s := WrittenGrouping(c);
    RekeyShape(c, ShowInt, Len(c));
    forall i | 0 <= i < Len(s) ensures ParseInt(s.keys[i]).Ok? {
      ParseShowInt(c.keys[i]);
    }
  }

  /** Every five-mark mask is read back as itself, so the spelled keys are distinct. */
  lemma ReadBackFixes(g: Grouping)
    requires Valid(g) && forall m :: m in g.entries ==> ValidMask(m) && |m| == 5
    ensures forall m :: m in g.entries ==> ReadBack(m) == m
    ensures InjectiveOn(g, StoredKey)
  {
    forall m | m in g.entries ensures ReadBack(m) == m {
      ParseShowInt(Value(m));
      DigitsOfValue(m);
    }
  }

  /** Each grouping of a space with five-mark masks is read back as written. */
  lemma EachGroupingRoundTrips(space: Strategies.Space)
    requires Strategies.WellFormed(space) && FiveMarkMasks(space)
    ensures var s := Written(Jsonify(space));
            forall w :: w in space.entries ==> w in s.entries && DecodeGrouping(s.entries[w]) == Ok(space.entries[w])
  {
    var s := Written(Jsonify(space));
    forall w | w in space.entries ensures w in s.entries && DecodeGrouping(s.entries[w]) == Ok(space.entries[w]) {
      GroupingRoundTrip(space.entries[w]);
    }
  }

  /**
   * `unjsonify` undoes `jsonify` (through the file) when every mask has
   * five marks in 0..2.
   */
  lemma RoundTrip(space: Strategies.Space)
    requires Strategies.WellFormed(space) && FiveMarkMasks(space)
    ensures Unjsonify(Written(Jsonify(space))) == Ok(space)
  {
    DecodedAsWritten(space);
  }

  lemma DecodedAsWritten(space: Strategies.Space)
    requires Strategies.WellFormed(space) && FiveMarkMasks(space)
    ensures var s := Written(Jsonify(space));
            && (forall w :: w in s.entries ==> DecodeGrouping(s.entries[w]).Ok?)
            && DecodedEntries(s) == space.entries
  {
    EachGroupingRoundTrips(space);
    var s := Written(Jsonify(space));
    assert forall w :: w in s.entries ==> DecodeGrouping(s.entries[w]).Ok?;
    SameEntries(s, space);
  }

  lemma SameEntries(s: Dict<Word, Stored>, space: Strategies.Space)
    requires s.entries.Keys == space.entries.Keys
    requires forall w :: w in s.entries ==> Valid(s.entries[w]) && DecodeGrouping(s.entries[w]) == Ok(space.entries[w])
    ensures DecodedEntries(s) == space.entries
  {
  }

  /**
   * A mask of any other length does not survive: what is read back has
   * only five-mark masks, so the space read back differs.
   */
  lemma OtherLengthsLost(space: Strategies.Space, w: Word, m: Mask)
    requires Strategies.WellFormed(space) && w in space.entries && m in space.entries[w].entries && |m| != 5
    ensures Unjsonify(Written(Jsonify(space))) != Ok(space)
  {
    var s := Written(Jsonify(space));
    var r := Unjsonify(s);
    if r.Ok? {
      var g := DecodeGrouping(s.entries[w]);
      if m in g.value.entries {
        DecodedMasksHaveFive(s.entries[w], m);
      }
    }
  }
}
