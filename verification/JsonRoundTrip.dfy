/** Printing and parsing a value: when the same value comes back, and when an equal one does. */
module JsonRoundTrip {
  import opened Bytes
  import opened Json
  import opened JsonEquality
  import opened JsonLexis
  import opened JsonStrings
  import opened JsonTheorems
  import opened JsonCount

  /** All string values are clean as far as their first NUL. */
  predicate CleanCStrings(j: Json)
    decreases j
  {
    match j
    case Str(s) => CleanString(CStr(s))
    case List(js) => AllCleanCStrings(js)
    case Object(ps) => PairsCleanCStrings(ps)
    case _ => true
  }

  predicate AllCleanCStrings(js: seq<Json>)
    decreases js
  {
    js != [] ==> CleanCStrings(js[0]) && AllCleanCStrings(js[1..])
  }

  predicate PairsCleanCStrings(ps: seq<Pair>)
    decreases ps
  {
    ps != [] ==> CleanCStrings(ps[0].val) && PairsCleanCStrings(ps[1..])
  }

  // ---------------------------------------------------------------- what is kept, and equality

  lemma {:induction false} CStrKept(s: bytes)
    ensures QuoteIn(CStr(s)) == QuoteIn(s) && KeptString(CStr(s)) == KeptString(s)
    ensures CStr(KeptString(s)) == KeptString(s)
  {
    if s != [] && s[0] != 0 {
      CStrKept(s[1..]);
      assert CStr(s)[1..] == CStr(s[1..]);
      if !Dropped(s[0]) {
        assert KeptString(s)[1..] == KeptString(s[1..]);
      }
    }
  }

  lemma {:induction false} KeptLookup(ps: seq<Pair>, key: bytes)
    ensures Lookup(KeptPairs(ps), key).Some? <==> Lookup(ps, key).Some?
  {
    if ps != [] {
      KeptLookup(ps[1..], key);
      assert KeptPairs(ps)[1..] == KeptPairs(ps[1..]);
    }
  }

  /** What is kept of a value means the same exactly when its strings are clean as far as they are printed. */
  lemma {:induction false} KeptMeans(j: Json)
    requires DistinctKeys(j)
    ensures DistinctKeys(Kept(j))
    ensures CleanCStrings(j) <==> !QuoteInside(j) && MeaningOf(Kept(j)) == MeaningOf(j)
    decreases j, 1
  {
    match j
    case Str(s) =>
      CStrKept(s);
      CleanIsKept(CStr(s));
    case List(js) => KeptItemsMean(js);
    case Object(ps) => KeptPairsMean(ps);
    case _ =>
  }

  lemma {:induction false} KeptItemsMean(js: seq<Json>)
    requires AllDistinct(js)
    ensures AllDistinct(KeptAll(js))
    ensures AllCleanCStrings(js) <==> !QuoteInsideAny(js) && MeaningOfAll(KeptAll(js)) == MeaningOfAll(js)
    decreases js, 0
  {
    if js != [] {
      KeptMeans(js[0]);
      KeptItemsMean(js[1..]);
      var kept := KeptAll(js);
      assert kept[1..] == KeptAll(js[1..]);
      assert MeaningOfAll(kept)[0] == MeaningOf(kept[0]) && MeaningOfAll(kept)[1..] == MeaningOfAll(kept[1..]);
      assert MeaningOfAll(js)[0] == MeaningOf(js[0]) && MeaningOfAll(js)[1..] == MeaningOfAll(js[1..]);
    }
  }

  lemma {:induction false} KeptPairsMean(ps: seq<Pair>)
    requires PairsDistinct(ps)
    ensures PairsDistinct(KeptPairs(ps))
    ensures PairsCleanCStrings(ps) <==> !QuoteInsidePairs(ps) && Members(KeptPairs(ps)) == Members(ps)
    decreases ps, 0
  {
    if ps != [] {
      var key, kept := ps[0].key, KeptPairs(ps);
      KeptMeans(ps[0].val);
      KeptPairsMean(ps[1..]);
      assert kept[1..] == KeptPairs(ps[1..]);
      KeptLookup(ps[1..], key);
      LookupMeans(ps[1..], key);
      LookupMeans(kept[1..], key);
      OneMember(Members(kept[1..]), Members(ps[1..]), key, MeaningOf(kept[0].val), MeaningOf(ps[0].val));
    }
  }

  lemma OneMember(m: map<bytes, Meaning>, m': map<bytes, Meaning>, k: bytes, v: Meaning, v': Meaning)
    requires k !in m && k !in m'
    ensures m[k := v] == m'[k := v'] <==> m == m' && v == v'
  {
    if m[k := v] == m'[k := v'] {
      assert m == m[k := v] - {k} && m' == m'[k := v'] - {k};
      assert m[k := v][k] == v;
    }
  }

  // ---------------------------------------------------------------- counting decides about the keys

  /** The pairs without the one of a key. */
  function Without(ps: seq<Pair>, key: bytes): seq<Pair> {
    if ps == [] then [] else if ps[0].key == key then ps[1..] else [ps[0]] + Without(ps[1..], key)
  }

  lemma {:induction false} WithoutOne(n: nat, ps: seq<Pair>, key: bytes)
    requires Lookup(ps, key).Some?
    ensures PairsCount(n, ps, true)
         == PairCount(n, Pair(key, Lookup(ps, key).value), true) + PairsCount(n, Without(ps, key), true)
    ensures forall k :: k != key ==> Lookup(Without(ps, key), k) == Lookup(ps, k)
  {
    hide PairCount;
    if ps[0].key != key {
      WithoutOne(n, ps[1..], key);
      assert Without(ps, key)[1..] == Without(ps[1..], key);
    }
  }

  lemma {:induction false} StillFound(ps: seq<Pair>, ps': seq<Pair>, key: bytes)
    requires AllFound(ps, ps') && Lookup(ps, key).None?
    requires forall k :: k != key ==> Lookup(Without(ps', key), k) == Lookup(ps', k)
    ensures AllFound(ps, Without(ps', key))
  {
    if ps != [] {
      StillFound(ps[1..], ps', key);
    }
  }

  /** A value equal to `j` holds at least as many of the strings sought, whatever the order of its pairs. */
  lemma {:induction false} EqualCount(n: nat, j: Json, j': Json)
    requires Equal(j, j') && DistinctKeys(j)
    ensures Count(n, j, true) <= Count(n, j', true)
    decreases j, 1
  {
    match (j, j')
    case (List(js), List(js')) => EqualItemsCount(n, js, js');
    case (Object(ps), Object(ps')) => FoundCount(n, ps, ps');
    case _ =>
  }

  lemma {:induction false} EqualItemsCount(n: nat, js: seq<Json>, js': seq<Json>)
    requires |js| == |js'| && AllEqual(js, js') && AllDistinct(js)
    ensures ItemsCount(n, js, true) <= ItemsCount(n, js', true)
    decreases js, 0
  {
    if js != [] {
      EqualCount(n, js[0], js'[0]);
      EqualItemsCount(n, js[1..], js'[1..]);
    }
  }

  lemma {:induction false} FoundCount(n: nat, ps: seq<Pair>, ps': seq<Pair>)
    requires AllFound(ps, ps') && PairsDistinct(ps)
    ensures PairsCount(n, ps, true) <= PairsCount(n, ps', true)
    decreases ps, 0
  {
    if ps != [] {
      var key := ps[0].key;
      WithoutOne(n, ps', key);
      StillFound(ps[1..], ps', key);
      EqualCount(n, ps[0].val, Lookup(ps', key).value);
      FoundCount(n, ps[1..], Without(ps', key));
    }
  }

  /** A key that is not clean counts, and the longest one is long enough. */
  lemma {:induction false} KeysCount(n: nat, j: Json)
    ensures Count(n, j, false) <= Count(n, j, true)
    ensures n == Longest(j) > 0 ==> Count(n, j, false) < Count(n, j, true)
    ensures Longest(j) == 0 <==> CleanKeys(j)
    decreases j, 1
  {
    match j
    case List(js) => ItemsKeysCount(n, js);
    case Object(ps) => PairsKeysCount(n, ps);
    case _ =>
  }

  lemma {:induction false} ItemsKeysCount(n: nat, js: seq<Json>)
    ensures ItemsCount(n, js, false) <= ItemsCount(n, js, true)
    ensures n == LongestInItems(js) > 0 ==> ItemsCount(n, js, false) < ItemsCount(n, js, true)
    ensures LongestInItems(js) == 0 <==> AllCleanKeys(js)
    decreases js, 0
  {
    if js != [] {
      KeysCount(n, js[0]);
      ItemsKeysCount(n, js[1..]);
    }
  }

  lemma {:induction false} PairsKeysCount(n: nat, ps: seq<Pair>)
    ensures PairsCount(n, ps, false) <= PairsCount(n, ps, true)
    ensures n == LongestInPairs(ps) > 0 ==> PairsCount(n, ps, false) < PairsCount(n, ps, true)
    ensures LongestInPairs(ps) == 0 <==> PairsCleanKeys(ps)
    decreases ps, 0
  {
    if ps != [] {
      KeysCount(n, ps[0].val);
      PairsKeysCount(n, ps[1..]);
    }
  }

  /** A value with a key that is not clean is never read back from its own text, nor is one equal to it. */
  lemma UncleanKeysNeverComeBack(nums: Numerals, j: Json, spaced: bool, tabs: nat, rest: bytes)
    requires NumbersOk(nums, j) && DistinctKeys(j) && !CleanKeys(j)
    ensures var r := Value(nums, Print(nums, j, spaced, tabs) + rest);
            !(r.Good? && |r.rest| >= |rest| && Equal(j, r.value))
  {
    hide Value;
    hide Count;
    hide Hits;
    hide Equal;
    hide Longest;
    var n, k := Longest(j), |rest|;
    var s := Print(nums, j, spaced, tabs) + rest;
    var r := Value(nums, s);
    KeysCount(n, j);
    if r.Good? && |r.rest| >= k && Equal(j, r.value) {
      NoHitsBehind(n, k, rest);
      PrintHits(n, k, nums, j, spaced, tabs, rest);
      ValueHits(n, k, nums, s);
      EqualCount(n, j, r.value);
    }
  }

  // ---------------------------------------------------------------- the theorem

  /**
   * A printed value, spaced or compact, after any white space and before anything that does not go on with a number.
   * The same value is read back exactly when all its keys and string values are clean; an equal value exactly when its
   * keys are, and its string values are as far as their first NUL.
   */
  lemma RoundTrip(nums: Numerals, j: Json, spaced: bool, tabs: nat, lead: bytes, rest: bytes)
    requires NumbersOk(nums, j) && DistinctKeys(j) && Stops(rest) && forall c <- lead :: White(c)
    ensures var r := Document(nums, lead + (Print(nums, j, spaced, tabs) + rest));
            && (r == Good(j, rest) <==> CleanStrings(j) && CleanKeys(j))
            && (r.Good? && r.rest == rest && Equal(j, r.value) <==> CleanCStrings(j) && CleanKeys(j))
  {
    hide Value;
    hide Equal;
    hide CleanCStrings;
    PrintStarts(nums, j, spaced, tabs);
    TrimSkips(lead, Print(nums, j, spaced, tabs) + rest);
    EqualIffSameMeaning(j, j);
    if CleanKeys(j) {
      ComesBack(nums, j, spaced, tabs, rest);
      CleanIsKeptWhole(j);
      KeptMeans(j);
      EqualIffSameMeaning(j, Kept(j));
    } else {
      UncleanKeysNeverComeBack(nums, j, spaced, tabs, rest);
    }
  }

  // ---------------------------------------------------------------- a family of keys that split

  /** What a hostile key holds between two clean ones: the end of a key, an empty list, and the start of another key. */
  const SPLIT: bytes := [QUOTE, COLON, OPEN_LIST, CLOSE_LIST, COMMA, QUOTE]

  lemma SplitKeyText(a: bytes, b: bytes)
    requires CStr(a + SPLIT + b) == a + SPLIT + b && CStr(a) == a && CStr(b) == b
    ensures PrintKey(a + SPLIT + b, false)
         == PrintKey(a, false) + [OPEN_LIST, CLOSE_LIST] + [COMMA] + PrintKey(b, false)
  {
    hide CStr;
  }

  lemma TwoPairs(nums: Numerals, p: Pair, q: Pair)
    ensures PrintPairs(nums, [p], false, 0, true) == PairText(nums, p, false, 0)
    ensures PrintPairs(nums, [p, q], false, 0, true)
         == PairText(nums, p, false, 0) + [COMMA] + PairText(nums, q, false, 0)
  {
    hide PrintKey;
    hide Print;
    var ps := [p, q];
    assert ps[1..] == [q] && [q][1..] == [] && [p][1..] == [];
    assert PrintPairs(nums, [q], false, 0, false) == [COMMA] + PairText(nums, q, false, 0);
  }

  lemma SplitText(nums: Numerals, a: bytes, b: bytes, v: Json)
    requires CleanKey(a) && CleanKey(b)
    ensures PrintPairs(nums, [Pair(a + SPLIT + b, v)], false, 0, true)
         == PrintPairs(nums, [Pair(a, List([])), Pair(b, v)], false, 0, true)
  {
    NoNul(a);
    NoNul(b);
    NoNul(a + SPLIT + b);
    SplitKeyText(a, b);
    TwoPairs(nums, Pair(a + SPLIT + b, v), Pair(b, v));
    TwoPairs(nums, Pair(a, List([])), Pair(b, v));
    var text, list := Print(nums, v, false, 1), [OPEN_LIST, CLOSE_LIST];
    assert Print(nums, List([]), false, 1) == list;
    hide PrintKey;
    hide PrintPairs;
    hide Print;
    hide CStr;
    hide CleanKey;
    var first, second := PrintKey(a, false), PrintKey(b, false);
    Regroup(first, list, [COMMA], second, text);
    Assoc(first + list, [COMMA], second + text);
    Assoc(first, list, [COMMA] + (second + text));
  }

  lemma OneMorePair(nums: Numerals, p: Pair, ps: seq<Pair>)
    requires CleanKey(p.key) && Printable(nums, p.val) && CleanStrings(p.val)
    requires !HasKey(ps, p.key) && PairsPrintable(nums, ps) && CleanPairs(ps)
    ensures PairsPrintable(nums, [p] + ps) && CleanPairs([p] + ps)
    ensures forall k :: HasKey([p] + ps, k) <==> p.key == k || HasKey(ps, k)
  {
    assert ([p] + ps)[1..] == ps;
  }

  /** A key with a quote in it can come back as other members. */
  lemma KeyWithQuoteSplits(nums: Numerals, a: bytes, b: bytes, v: Json, rest: bytes)
    requires CleanKey(a) && CleanKey(b) && a != b && Printable(nums, v) && CleanStrings(v) && Stops(rest)
    ensures Document(nums, Print(nums, Object([Pair(a + SPLIT + b, v)]), false, 0) + rest)
         == Good(Object([Pair(a, List([])), Pair(b, v)]), rest)
  {
    SplitText(nums, a, b, v);
    var p, q := Pair(a, List([])), Pair(b, v);
    OneMorePair(nums, q, []);
    assert [q] + [] == [q];
    assert !HasKey([q], a);
    OneMorePair(nums, p, [q]);
    var ps := [p, q];
    assert [p] + [q] == ps;
    assert Printable(nums, Object(ps)) && CleanStrings(Object(ps));
    hide Printable;
    hide CleanStrings;
    RoundTrip(nums, Object(ps), false, 0, [], rest);
    assert [] + (Print(nums, Object(ps), false, 0) + rest) == Print(nums, Object(ps), false, 0) + rest;
  }
}
