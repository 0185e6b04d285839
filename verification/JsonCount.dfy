/**
 * How often a printed text can be read as a string of a given kind, against how often a value holds one. It shows that
 * a value with a key that is not clean never comes back, whatever the parser makes of its text.
 */
module JsonCount {
  import opened Bytes
  import opened Json
  import opened JsonEquality
  import opened JsonLexis
  import opened JsonStrings
  import opened JsonTheorems

  // ---------------------------------------------------------------- the strings counted

  /** A string of at least `n` bytes that is not clean. */
  predicate Sought(n: nat, w: bytes) {
    |w| >= n && !CleanKey(w)
  }

  function One(n: nat, w: bytes): nat {
    if Sought(n, w) then 1 else 0
  }

  /** How many string values in `j`, taken up to their NUL, and keys if wanted, are sought. */
  function Count(n: nat, j: Json, keys: bool): nat
    decreases j
  {
    match j
    case Str(s) => One(n, CStr(s))
    case List(js) => ItemsCount(n, js, keys)
    case Object(ps) => PairsCount(n, ps, keys)
    case _ => 0
  }

  function ItemsCount(n: nat, js: seq<Json>, keys: bool): nat
    decreases js
  {
    if js == [] then 0 else Count(n, js[0], keys) + ItemsCount(n, js[1..], keys)
  }

  function PairCount(n: nat, p: Pair, keys: bool): nat
    decreases p
  {
    (if keys then One(n, p.key) else 0) + Count(n, p.val, keys)
  }

  function PairsCount(n: nat, ps: seq<Pair>, keys: bool): nat
    decreases ps
  {
    if ps == [] then 0 else PairCount(n, ps[0], keys) + PairsCount(n, ps[1..], keys)
  }

  lemma {:induction false} CStrIsPrefix(s: bytes)
    ensures |CStr(s)| <= |s| && CStr(s) == s[..|CStr(s)|]
  {
    if s != [] && s[0] != 0 {
      CStrIsPrefix(s[1..]);
      assert s[..|CStr(s)|] == [s[0]] + s[1..][..|CStr(s[1..])|];
    }
  }

  /** What is sought in a part is sought in the whole. */
  lemma SoughtInPart(n: nat, a: bytes, b: bytes, c: bytes)
    requires Sought(n, b)
    ensures Sought(n, a + b + c)
  {
    var x :| x in b && !(x >= 0x20 && x != QUOTE && x != BACKSLASH);
    assert x in a + b + c;
  }

  lemma SoughtUncut(n: nat, s: bytes)
    ensures One(n, CStr(s)) <= One(n, s)
  {
    CStrIsPrefix(s);
    if Sought(n, CStr(s)) {
      SoughtInPart(n, [], CStr(s), s[|CStr(s)|..]);
      assert [] + CStr(s) + s[|CStr(s)|..] == s;
    }
  }

  // ---------------------------------------------------------------- the places where one can be read

  /** A sought string can be read at the front of `s`, leaving at least `k` bytes. */
  predicate Hit(n: nat, k: nat, s: bytes) {
    Quoted(s).Good? && |Quoted(s).rest| >= k && Sought(n, Quoted(s).value)
  }

  function Hits(n: nat, k: nat, s: bytes): nat {
    if s == [] then 0 else (if Hit(n, k, s) then 1 else 0) + Hits(n, k, s[1..])
  }

  lemma {:induction false} TrimHits(n: nat, k: nat, s: bytes)
    ensures Hits(n, k, Trim(s)) <= Hits(n, k, s)
  {
    hide Hit;
    if s != [] && IsSpace(s[0]) {
      TrimHits(n, k, s[1..]);
    }
  }

  lemma {:induction false} DropHits(n: nat, k: nat, s: bytes, m: nat)
    requires m <= |s|
    ensures Hits(n, k, s[m..]) <= Hits(n, k, s)
  {
    hide Hit;
    if m == 0 {
      assert s[m..] == s;
    } else {
      DropHits(n, k, s[1..], m - 1);
      assert s[1..][m - 1..] == s[m..];
    }
  }

  lemma {:induction false} ExpectHits(n: nat, k: nat, s: bytes, text: bytes)
    requires Expect(s, text).Good?
    ensures Hits(n, k, Expect(s, text).rest) <= Hits(n, k, s)
    decreases |text|
  {
    hide Hit;
    if text != [] {
      ExpectHits(n, k, s[1..], text[1..]);
    }
  }

  function NextQuote(s: bytes): (q: nat)
    ensures q <= |s|
  {
    if s == [] || s[0] == QUOTE then 0 else 1 + NextQuote(s[1..])
  }

  /** No escape reads over a quote. */
  lemma EscapeStops(s: bytes)
    requires Escape(s).Good?
    ensures var m := |s| - |Escape(s).rest|;
            1 <= m <= |s| && Escape(s).rest == s[m..] && NextQuote(s) == m + NextQuote(s[m..])
  {
    if ControlOf(s[0]).None? {
      assert HexDigit(s[1]).Some? && HexDigit(s[2]).Some? && HexDigit(s[3]).Some? && HexDigit(s[4]).Some?;
      NoQuoteAhead(s, 5);
    } else {
      NoQuoteAhead(s, 1);
    }
  }

  lemma {:induction false} NoQuoteAhead(s: bytes, m: nat)
    requires m <= |s| && forall i | 0 <= i < m :: s[i] != QUOTE
    ensures NextQuote(s) == m + NextQuote(s[m..])
  {
    if m == 0 {
      assert s[m..] == s;
    } else {
      NoQuoteAhead(s[1..], m - 1);
      assert s[1..][m - 1..] == s[m..];
    }
  }

  /** A string ends at the next quote, whatever is before it. */
  lemma {:induction false} EndsAtQuote(s: bytes, text: bytes)
    requires Chars(s, text).Good?
    ensures NextQuote(s) < |s| && Chars(s, text).rest == s[NextQuote(s) + 1..]
    decreases |s|
  {
    if s[0] == BACKSLASH {
      var e, m := Escape(s[1..]), |s| - 1 - |Escape(s[1..]).rest|;
      EscapeStops(s[1..]);
      EndsAtQuote(e.rest, text + e.value);
      assert s[1..][m..] == s[1 + m..];
      assert s[1 + m..][NextQuote(e.rest) + 1..] == s[NextQuote(s) + 1..];
    } else if s[0] != QUOTE {
      EndsAtQuote(s[1..], text + [s[0]]);
      assert s[1..][NextQuote(s[1..]) + 1..] == s[NextQuote(s) + 1..];
    }
  }

  /** Reading one string takes one place where it can be read. */
  lemma QuotedHits(n: nat, k: nat, s: bytes)
    requires Quoted(s).Good? && |Quoted(s).rest| >= k
    ensures One(n, Quoted(s).value) + Hits(n, k, Quoted(s).rest) <= Hits(n, k, s)
  {
    hide Sought;
    hide Chars;
    EndsAtQuote(s[1..], []);
    DropHits(n, k, s[1..], NextQuote(s[1..]) + 1);
  }

  // ---------------------------------------------------------------- parsing

  lemma {:induction false} ItemsCountMore(n: nat, js: seq<Json>, j: Json)
    ensures ItemsCount(n, js + [j], true) == ItemsCount(n, js, true) + Count(n, j, true)
  {
    hide Count;
    if js == [] {
      assert js + [j] == [j] && [j][1..] == [];
    } else {
      assert (js + [j])[1..] == js[1..] + [j];
      ItemsCountMore(n, js[1..], j);
    }
  }

  lemma {:induction false} PutCount(n: nat, ps: seq<Pair>, p: Pair)
    ensures PairsCount(n, Put(ps, p), true) <= PairsCount(n, ps, true) + PairCount(n, p, true)
  {
    hide PairCount;
    if ps == [] {
      assert [p][1..] == [];
    } else if ps[0].key != p.key {
      assert Put(ps, p)[1..] == Put(ps[1..], p);
      PutCount(n, ps[1..], p);
    } else {
      assert Put(ps, p)[1..] == ps[1..];
    }
  }

  /** The sought strings in a value that is read are read at as many places. */
  lemma {:induction false} ValueHits(n: nat, k: nat, nums: Numerals, s: bytes)
    requires Value(nums, s).Good? && |Value(nums, s).rest| >= k
    ensures Count(n, Value(nums, s).value, true) + Hits(n, k, Value(nums, s).rest) <= Hits(n, k, s)
    decreases |s|, 1
  {
    hide Hits;
    hide Sought;
    hide Quoted;
    hide Expect;
    if s[0] == OPEN_OBJECT {
      ObjectHits(n, k, nums, s);
    } else if s[0] == OPEN_LIST {
      ListHits(n, k, nums, s);
    } else if s[0] == QUOTE {
      QuotedHits(n, k, s);
      SoughtUncut(n, Quoted(s).value);
    } else if s[0] == FALSE[0] {
      ExpectHits(n, k, s, FALSE);
    } else if s[0] == TRUE[0] {
      ExpectHits(n, k, s, TRUE);
    } else if s[0] == NULL[0] {
      ExpectHits(n, k, s, NULL);
    } else {
      DropHits(n, k, s, NumberWidth(s, MAX_NUMBER_WIDTH));
    }
  }

  lemma {:induction false} ListHits(n: nat, k: nat, nums: Numerals, s: bytes)
    requires s != [] && s[0] == OPEN_LIST && Value(nums, s).Good? && |Value(nums, s).rest| >= k
    ensures Count(n, Value(nums, s).value, true) + Hits(n, k, Value(nums, s).rest) <= Hits(n, k, s)
    decreases |s|, 0
  {
    hide Hits;
    hide Sought;
    var t := Trim(s[1..]);
    DropHits(n, k, s, 1);
    TrimHits(n, k, s[1..]);
    if t[0] == CLOSE_LIST {
      DropHits(n, k, t, 1);
    } else {
      var first := Value(nums, t);
      ItemsHits(n, k, nums, first.rest, [first.value]);
      ValueHits(n, k, nums, t);
      assert [first.value] == [] + [first.value];
      ItemsCountMore(n, [], first.value);
    }
  }

  lemma {:induction false} ItemsHits(n: nat, k: nat, nums: Numerals, s: bytes, js: seq<Json>)
    requires Items(nums, s, js).Good? && |Items(nums, s, js).rest| >= k
    ensures |s| > k
    ensures var r := Items(nums, s, js);
            Count(n, r.value, true) + Hits(n, k, r.rest) <= ItemsCount(n, js, true) + Hits(n, k, s)
    decreases |s|, 2
  {
    hide Hits;
    hide ItemsCount;
    var t := Trim(s);
    TrimHits(n, k, s);
    DropHits(n, k, t, 1);
    if t[0] != CLOSE_LIST {
      var next := Trim(t[1..]);
      var item := Value(nums, next);
      TrimHits(n, k, t[1..]);
      ItemsHits(n, k, nums, item.rest, js + [item.value]);
      ValueHits(n, k, nums, next);
      ItemsCountMore(n, js, item.value);
    }
  }

  lemma {:induction false} KvpHits(n: nat, k: nat, nums: Numerals, s: bytes)
    requires Kvp(nums, s).Good? && |Kvp(nums, s).rest| >= k
    ensures PairCount(n, Kvp(nums, s).value, true) + Hits(n, k, Kvp(nums, s).rest) <= Hits(n, k, s)
    decreases |s|, 2
  {
    hide Hits;
    hide Sought;
    var r := Quoted(s).rest;
    var t := Trim(r);
    QuotedHits(n, k, s);
    TrimHits(n, k, r);
    DropHits(n, k, t, 1);
    TrimHits(n, k, t[1..]);
    ValueHits(n, k, nums, Trim(t[1..]));
  }

  lemma {:induction false} ObjectHits(n: nat, k: nat, nums: Numerals, s: bytes)
    requires s != [] && s[0] == OPEN_OBJECT && Value(nums, s).Good? && |Value(nums, s).rest| >= k
    ensures Count(n, Value(nums, s).value, true) + Hits(n, k, Value(nums, s).rest) <= Hits(n, k, s)
    decreases |s|, 0
  {
    hide Hits;
    hide Sought;
    var t := Trim(s[1..]);
    DropHits(n, k, s, 1);
    TrimHits(n, k, s[1..]);
    if t[0] == CLOSE_OBJECT {
      DropHits(n, k, t, 1);
    } else {
      var first := Kvp(nums, t);
      PairsHits(n, k, nums, first.rest, [first.value]);
      KvpHits(n, k, nums, t);
      assert Put([], first.value) == [first.value];
      PutCount(n, [], first.value);
    }
  }

  lemma {:induction false} PairsHits(n: nat, k: nat, nums: Numerals, s: bytes, ps: seq<Pair>)
    requires Pairs(nums, s, ps).Good? && |Pairs(nums, s, ps).rest| >= k
    ensures |s| > k
    ensures var r := Pairs(nums, s, ps);
            Count(n, r.value, true) + Hits(n, k, r.rest) <= PairsCount(n, ps, true) + Hits(n, k, s)
    decreases |s|, 2
  {
    hide Hits;
    hide PairsCount;
    hide PairCount;
    var t := Trim(s);
    TrimHits(n, k, s);
    DropHits(n, k, t, 1);
    if t[0] != CLOSE_OBJECT {
      var next := Trim(t[1..]);
      var pair := Kvp(nums, next);
      TrimHits(n, k, t[1..]);
      PairsHits(n, k, nums, pair.rest, Put(ps, pair.value));
      KvpHits(n, k, nums, next);
      PutCount(n, ps, pair.value);
    }
  }

  // ---------------------------------------------------------------- printing

  /** No string already open in front of `s` can be read on into one that is sought. */
  predicate Calm(k: nat, s: bytes) {
    Chars(s, []).Good? && |Chars(s, []).rest| >= k ==> CleanKey(Chars(s, []).value)
  }

  lemma {:induction false} CharsAfter(s: bytes, text: bytes)
    ensures Chars(s, text).Good? <==> Chars(s, []).Good?
    ensures Chars(s, []).Good? ==> Chars(s, text) == Good(text + Chars(s, []).value, Chars(s, []).rest)
    decreases |s|
  {
    if s == [] || s[0] < 0x20 || s[0] == QUOTE {
      assert text + [] == text;
    } else if s[0] == BACKSLASH {
      var e := Escape(s[1..]);
      if e.Good? {
        CharsAfter(e.rest, text + e.value);
        CharsAfter(e.rest, [] + e.value);
        if Chars(e.rest, []).Good? {
          Assoc(text, e.value, Chars(e.rest, []).value);
          assert [] + e.value == e.value;
        }
      }
    } else {
      CharsAfter(s[1..], text + [s[0]]);
      CharsAfter(s[1..], [] + [s[0]]);
      if Chars(s[1..], []).Good? {
        Assoc(text, [s[0]], Chars(s[1..], []).value);
        assert [] + [s[0]] == [s[0]];
      }
    }
  }

  /** In the last `k` bytes there is no room. */
  lemma {:induction false} NoHitsBehind(n: nat, k: nat, s: bytes)
    requires |s| <= k
    ensures Hits(n, k, s) == 0 && Calm(k, s)
  {
    if s != [] {
      NoHitsBehind(n, k, s[1..]);
    }
  }

  /** Text without quotes and backslashes. */
  predicate Plain(a: bytes) {
    forall c <- a :: c != QUOTE && c != BACKSLASH
  }

  lemma {:induction false} PlainHits(n: nat, k: nat, a: bytes, x: bytes)
    requires Plain(a)
    ensures Hits(n, k, a + x) == Hits(n, k, x)
    ensures Calm(k, x) ==> Calm(k, a + x)
  {
    if a == [] {
      assert a + x == x;
    } else {
      var c, t := a[0], a[1..] + x;
      assert (a + x)[1..] == t && c in a && forall b <- a[1..] :: b in a;
      PlainHits(n, k, a[1..], x);
      CharsAfter(t, [] + [c]);
      assert [] + [c] == [c];
    }
  }

  /** The quote behind a string can be read as one that begins there, but never as one that is sought. */
  lemma CalmQuote(n: nat, k: nat, x: bytes)
    requires Calm(k, x)
    ensures Hits(n, k, [QUOTE] + x) == Hits(n, k, x) && Calm(k, [QUOTE] + x)
  {
    assert ([QUOTE] + x)[1..] == x;
  }

  /** What the printer keeps of a string is sought only if the string, up to its NUL, is. */
  lemma {:induction false} KeptInside(s: bytes)
    ensures |KeptString(s)| <= |CStr(s)| && forall c <- KeptString(s) :: c in CStr(s)
  {
    if s != [] && s[0] != 0 {
      KeptInside(s[1..]);
    }
  }

  lemma SoughtKept(n: nat, s: bytes)
    ensures One(n, KeptString(s)) <= One(n, CStr(s))
  {
    KeptInside(s);
  }

  /** From inside a printed string at most one sought string can be read, behind its last quote. */
  lemma {:induction false} EscapedHits(n: nat, k: nat, s: bytes, x: bytes)
    requires Calm(k, x)
    ensures Hits(n, k, EscapeString(s) + [QUOTE] + x)
         <= Hits(n, k, x) + if QuoteIn(s) then One(n, CStr(s)) else 0
  {
    hide Sought;
    hide Hit;
    hide EscapeChar;
    var t := EscapeString(s) + [QUOTE] + x;
    if s == [] || s[0] == 0 {
      assert t == [QUOTE] + x;
      CalmQuote(n, k, x);
    } else {
      var more := EscapeString(s[1..]) + [QUOTE] + x;
      assert t == EscapeChar(s[0]) + more;
      EscapedHits(n, k, s[1..], x);
      SoughtTail(n, s);
      if s[0] == QUOTE {
        HitBehindQuote(n, k, s[1..], x);
        EscapedQuoteHits(n, k, more);
      } else {
        EscapeCharHits(n, k, s[0], more);
      }
    }
  }

  lemma EscapedQuoteHits(n: nat, k: nat, more: bytes)
    ensures Hits(n, k, EscapeChar(QUOTE) + more) == (if Hit(n, k, [QUOTE] + more) then 1 else 0) + Hits(n, k, more)
  {
    var t := EscapeChar(QUOTE) + more;
    assert t[0] == BACKSLASH && t[1..] == [QUOTE] + more && ([QUOTE] + more)[1..] == more;
  }

  lemma SoughtTail(n: nat, s: bytes)
    requires s != [] && s[0] != 0
    ensures One(n, CStr(s[1..])) <= One(n, CStr(s))
  {
    if Sought(n, CStr(s[1..])) {
      SoughtInPart(n, [s[0]], CStr(s[1..]), []);
      assert [s[0]] + CStr(s[1..]) + [] == CStr(s);
    }
  }

  /** What can be read behind a quote in front of the rest `s` of a printed string. */
  lemma HitBehindQuote(n: nat, k: nat, s: bytes, x: bytes)
    ensures Hit(n, k, [QUOTE] + (EscapeString(s) + [QUOTE] + x)) ==> !QuoteIn(s) && One(n, CStr(s)) == 1
  {
    var t := EscapeString(s) + [QUOTE] + x;
    assert ([QUOTE] + t)[1..] == t;
    StringComesBack(s, x, []);
    assert [] + KeptString(s) == KeptString(s);
    SoughtKept(n, s);
  }

  lemma EscapeCharHits(n: nat, k: nat, c: byte, more: bytes)
    requires c != 0 && c != QUOTE
    ensures Hits(n, k, EscapeChar(c) + more) == Hits(n, k, more)
  {
    hide Chars;
    var t := EscapeChar(c) + more;
    if EscapeChar(c) == [] {
      assert t == more;
    } else if |EscapeChar(c)| == 1 {
      assert t[1..] == more;
    } else {
      assert t[1..][1..] == more && t[0] != QUOTE && t[1..][0] != QUOTE;
    }
  }

  /** A printed string value is read as a sought string at most once, and only if it is one. */
  lemma StringHits(n: nat, k: nat, s: bytes, x: bytes)
    requires Calm(k, x)
    ensures var t := [QUOTE] + EscapeString(s) + [QUOTE] + x;
            Hits(n, k, t) <= One(n, CStr(s)) + Hits(n, k, x) && Calm(k, t)
  {
    hide Sought;
    var t := EscapeString(s) + [QUOTE] + x;
    assert [QUOTE] + EscapeString(s) + [QUOTE] + x == [QUOTE] + t;
    assert ([QUOTE] + t)[1..] == t;
    EscapedHits(n, k, s, x);
    HitBehindQuote(n, k, s, x);
  }

  /** From inside the text of a key that is clean, or at most `n` long, no sought string can be read. */
  lemma {:induction false} RawHits(n: nat, k: nat, a: bytes, x: bytes)
    requires Calm(k, x) && (CleanKey(a) || |a| <= n)
    ensures Hits(n, k, a + [QUOTE] + x) == Hits(n, k, x)
    ensures !Hit(n, k, [QUOTE] + (a + [QUOTE] + x))
  {
    hide Chars;
    var t := a + [QUOTE] + x;
    assert ([QUOTE] + t)[1..] == t;
    if a == [] {
      assert t == [QUOTE] + x;
      CalmQuote(n, k, x);
    } else {
      var more := a[1..] + [QUOTE] + x;
      assert t[1..] == more && a[0] in a && forall b <- a[1..] :: b in a;
      RawHits(n, k, a[1..], x);
      if a[0] == QUOTE {
        assert t == [QUOTE] + more;
      }
    }
    NothingSought(n, a, x);
  }

  lemma {:induction false} QuoteByThen(a: bytes, x: bytes)
    ensures NextQuote(a + [QUOTE] + x) <= |a|
  {
    var t := a + [QUOTE] + x;
    if a == [] {
      assert t[0] == QUOTE;
    } else {
      assert t[1..] == a[1..] + [QUOTE] + x;
      QuoteByThen(a[1..], x);
    }
  }

  lemma NothingSought(n: nat, a: bytes, x: bytes)
    requires CleanKey(a) || |a| <= n
    ensures var r := Chars(a + [QUOTE] + x, []); r.Good? ==> !Sought(n, r.value)
  {
    var t := a + [QUOTE] + x;
    if CleanKey(a) {
      CleanComesBack(a, x, []);
      assert [] + a == a;
    } else if Chars(t, []).Good? {
      var Good(v, rest) := Chars(t, []);
      ReadingShrinks(t, []);
      EndsAtQuote(t, []);
      QuoteByThen(a, x);
      if |v| + 1 + |rest| == |t| {
        var w :| CleanKey(w) && v == [] + w && t == w + [QUOTE] + rest;
        assert v == w;
      }
    }
  }

  lemma {:induction false} PlainTabs(tabs: nat)
    ensures Plain(Tabs(tabs))
  {
    if tabs > 0 {
      PlainTabs(tabs - 1);
    }
  }

  lemma PlainGap(spaced: bool, tabs: nat)
    ensures Plain(Gap(spaced, tabs))
  {
    PlainTabs(tabs);
  }

  /** The length of the longest key that is not clean. */
  function Longest(j: Json): nat
    decreases j
  {
    match j
    case List(js) => LongestInItems(js)
    case Object(ps) => LongestInPairs(ps)
    case _ => 0
  }

  function LongestInItems(js: seq<Json>): nat
    decreases js
  {
    if js == [] then 0 else Max(Longest(js[0]), LongestInItems(js[1..]))
  }

  function LongestInPairs(ps: seq<Pair>): nat
    decreases ps
  {
    if ps == [] then 0
    else Max(Max(if CleanKey(ps[0].key) then 0 else |ps[0].key|, Longest(ps[0].val)), LongestInPairs(ps[1..]))
  }

  function Max(a: nat, b: nat): nat {
    if a < b then b else a
  }

  /** A key with the quotes around it, the colon and the space. */
  lemma KeyHits(n: nat, k: nat, key: bytes, spaced: bool, x: bytes)
    requires Calm(k, x) && (CleanKey(key) || |key| <= n)
    ensures Hits(n, k, PrintKey(key, spaced) + x) == Hits(n, k, x) && Calm(k, PrintKey(key, spaced) + x)
  {
    var end := [COLON] + (Space(spaced) + x);
    CStrIsPrefix(key);
    if CleanKey(key) {
      CleanComesBack(key, [], []);
    }
    PlainHits(n, k, Space(spaced), x);
    PlainHits(n, k, [COLON], Space(spaced) + x);
    hide CleanKey;
    hide CStr;
    RawHits(n, k, CStr(key), end);
    KeyText(key, spaced, x);
    assert ([QUOTE] + (CStr(key) + [QUOTE] + end))[1..] == CStr(key) + [QUOTE] + end;
  }

  /**
   * No sought string can be read from a printed value at more places than it has string values that are sought, when
   * the keys in it that are not clean are at most `n` long.
   */
  lemma {:induction false} PrintHits(n: nat, k: nat, nums: Numerals, j: Json, spaced: bool, tabs: nat, x: bytes)
    requires NumbersOk(nums, j) && Longest(j) <= n && Calm(k, x)
    ensures var t := Print(nums, j, spaced, tabs) + x;
            Hits(n, k, t) <= Count(n, j, false) + Hits(n, k, x) && Calm(k, t)
    decreases j, 1
  {
    hide Hits;
    hide Calm;
    match j
    case Null => PlainHits(n, k, NULL, x);
    case Boolean(b) => PlainHits(n, k, if b then TRUE else FALSE, x);
    case Number(v) =>
      NumberChars(nums.show(v));
      NoNul(nums.show(v));
      PlainHits(n, k, nums.show(v), x);
    case Str(s) => StringHits(n, k, s, x);
    case List(js) =>
      ListText(nums, js, spaced, tabs, x);
      ClosingHits(n, k, spaced, tabs, CLOSE_LIST, x);
      PrintItemsHits(n, k, nums, js, spaced, tabs, true, Closing(spaced, tabs, CLOSE_LIST, x));
      PlainHits(n, k, [OPEN_LIST], PrintItems(nums, js, spaced, tabs, true) + Closing(spaced, tabs, CLOSE_LIST, x));
    case Object(ps) =>
      ObjectText(nums, ps, spaced, tabs, x);
      ClosingHits(n, k, spaced, tabs, CLOSE_OBJECT, x);
      PrintPairsHits(n, k, nums, ps, spaced, tabs, true, Closing(spaced, tabs, CLOSE_OBJECT, x));
      PlainHits(n, k, [OPEN_OBJECT], PrintPairs(nums, ps, spaced, tabs, true) + Closing(spaced, tabs, CLOSE_OBJECT, x));
  }

  lemma ClosingHits(n: nat, k: nat, spaced: bool, tabs: nat, close: byte, x: bytes)
    requires Calm(k, x) && (close == CLOSE_LIST || close == CLOSE_OBJECT)
    ensures var t := Closing(spaced, tabs, close, x); Hits(n, k, t) == Hits(n, k, x) && Calm(k, t)
  {
    hide Hits;
    hide Calm;
    PlainGap(spaced, tabs);
    PlainHits(n, k, [close], x);
    PlainHits(n, k, Gap(spaced, tabs), [close] + x);
  }

  /** The comma and the white space in front of an item or a pair. */
  lemma BetweenHits(n: nat, k: nat, spaced: bool, tabs: nat, first: bool, x: bytes)
    requires Calm(k, x)
    ensures var t := Comma(first) + (Gap(spaced, tabs + 1) + x); Hits(n, k, t) == Hits(n, k, x) && Calm(k, t)
  {
    hide Hits;
    hide Calm;
    PlainGap(spaced, tabs + 1);
    PlainHits(n, k, Gap(spaced, tabs + 1), x);
    PlainHits(n, k, Comma(first), Gap(spaced, tabs + 1) + x);
  }

  lemma {:induction false} PrintItemsHits(n: nat, k: nat, nums: Numerals, js: seq<Json>, spaced: bool, tabs: nat,
                                          first: bool, end: bytes)
    requires AllNumbersOk(nums, js) && LongestInItems(js) <= n && Calm(k, end)
    ensures var t := PrintItems(nums, js, spaced, tabs, first) + end;
            Hits(n, k, t) <= ItemsCount(n, js, false) + Hits(n, k, end) && Calm(k, t)
    decreases js, 0
  {
    hide Hits;
    hide Calm;
    hide Print;
    if js == [] {
      assert PrintItems(nums, js, spaced, tabs, first) + end == end;
    } else {
      var tail := PrintItems(nums, js[1..], spaced, tabs, false) + end;
      PrintItemsHits(n, k, nums, js[1..], spaced, tabs, false, end);
      PrintHits(n, k, nums, js[0], spaced, tabs + 1, tail);
      BetweenHits(n, k, spaced, tabs, first, Print(nums, js[0], spaced, tabs + 1) + tail);
      ItemsFollow(nums, js, spaced, tabs, first, end);
    }
  }

  lemma {:induction false} PrintPairsHits(n: nat, k: nat, nums: Numerals, ps: seq<Pair>, spaced: bool, tabs: nat,
                                          first: bool, end: bytes)
    requires PairsNumbersOk(nums, ps) && LongestInPairs(ps) <= n && Calm(k, end)
    ensures var t := PrintPairs(nums, ps, spaced, tabs, first) + end;
            Hits(n, k, t) <= PairsCount(n, ps, false) + Hits(n, k, end) && Calm(k, t)
    decreases ps, 0
  {
    hide Hits;
    hide Calm;
    hide Print;
    hide CleanKey;
    if ps == [] {
      assert PrintPairs(nums, ps, spaced, tabs, first) + end == end;
    } else {
      var tail := PrintPairs(nums, ps[1..], spaced, tabs, false) + end;
      var text := Print(nums, ps[0].val, spaced, tabs + 1);
      PrintPairsHits(n, k, nums, ps[1..], spaced, tabs, false, end);
      PrintHits(n, k, nums, ps[0].val, spaced, tabs + 1, tail);
      KeyHits(n, k, ps[0].key, spaced, text + tail);
      Assoc(PrintKey(ps[0].key, spaced), text, tail);
      BetweenHits(n, k, spaced, tabs, first, PairText(nums, ps[0], spaced, tabs) + tail);
      PairsFollow(nums, ps, spaced, tabs, first, end);
    }
  }
}
