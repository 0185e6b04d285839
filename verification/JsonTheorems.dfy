/** What comes back when a printed JSON value is parsed, spaced or compact, whatever follows it. */
module JsonTheorems {
  import opened Bytes
  import opened Json
  import opened JsonEquality
  import opened JsonLexis
  import opened JsonStrings

  /** `n` is printed as a JSON number of at most 26 characters, and that is read as `n`. */
  ghost predicate NumberOk(nums: Numerals, n: Double) {
    var t := nums.show(n);
    IsNumber(t) && |t| <= 26 && nums.read(t) == Some(n)
  }

  /** All numbers are read as they are printed. */
  ghost predicate NumbersOk(nums: Numerals, j: Json)
    decreases j
  {
    match j
    case Number(n) => NumberOk(nums, n)
    case List(js) => AllNumbersOk(nums, js)
    case Object(ps) => PairsNumbersOk(nums, ps)
    case _ => true
  }

  ghost predicate AllNumbersOk(nums: Numerals, js: seq<Json>)
    decreases js
  {
    js != [] ==> NumbersOk(nums, js[0]) && AllNumbersOk(nums, js[1..])
  }

  ghost predicate PairsNumbersOk(nums: Numerals, ps: seq<Pair>)
    decreases ps
  {
    ps != [] ==> NumbersOk(nums, ps[0].val) && PairsNumbersOk(nums, ps[1..])
  }

  /** All keys in all objects are clean. */
  predicate CleanKeys(j: Json)
    decreases j
  {
    match j
    case List(js) => AllCleanKeys(js)
    case Object(ps) => PairsCleanKeys(ps)
    case _ => true
  }

  predicate AllCleanKeys(js: seq<Json>)
    decreases js
  {
    js != [] ==> CleanKeys(js[0]) && AllCleanKeys(js[1..])
  }

  predicate PairsCleanKeys(ps: seq<Pair>)
    decreases ps
  {
    ps != [] ==> CleanKey(ps[0].key) && CleanKeys(ps[0].val) && PairsCleanKeys(ps[1..])
  }

  ghost predicate Printable(nums: Numerals, j: Json) {
    NumbersOk(nums, j) && DistinctKeys(j) && CleanKeys(j)
  }

  ghost predicate AllPrintable(nums: Numerals, js: seq<Json>) {
    AllNumbersOk(nums, js) && AllDistinct(js) && AllCleanKeys(js)
  }

  ghost predicate PairsPrintable(nums: Numerals, ps: seq<Pair>) {
    PairsNumbersOk(nums, ps) && PairsDistinct(ps) && PairsCleanKeys(ps)
  }

  predicate HasKey(ps: seq<Pair>, key: bytes) {
    Lookup(ps, key).Some?
  }

  /** A string value with a double quote is inside. */
  predicate QuoteInside(j: Json)
    decreases j
  {
    match j
    case Str(s) => QuoteIn(s)
    case List(js) => QuoteInsideAny(js)
    case Object(ps) => QuoteInsidePairs(ps)
    case _ => false
  }

  predicate QuoteInsideAny(js: seq<Json>)
    decreases js
  {
    js != [] && (QuoteInside(js[0]) || QuoteInsideAny(js[1..]))
  }

  predicate QuoteInsidePairs(ps: seq<Pair>)
    decreases ps
  {
    ps != [] && (QuoteInside(ps[0].val) || QuoteInsidePairs(ps[1..]))
  }

  /** `j` with every string value reduced to what the printer keeps of it. */
  function Kept(j: Json): Json
    decreases j
  {
    match j
    case Str(s) => Str(KeptString(s))
    case List(js) => List(KeptAll(js))
    case Object(ps) => Object(KeptPairs(ps))
    case _ => j
  }

  function KeptAll(js: seq<Json>): seq<Json>
    decreases js
  {
    if js == [] then [] else [Kept(js[0])] + KeptAll(js[1..])
  }

  function KeptPairs(ps: seq<Pair>): seq<Pair>
    decreases ps
  {
    if ps == [] then [] else [Pair(ps[0].key, Kept(ps[0].val))] + KeptPairs(ps[1..])
  }

  /** All string values are clean. */
  predicate CleanStrings(j: Json)
    decreases j
  {
    match j
    case Str(s) => CleanString(s)
    case List(js) => CleanAll(js)
    case Object(ps) => CleanPairs(ps)
    case _ => true
  }

  predicate CleanAll(js: seq<Json>)
    decreases js
  {
    js != [] ==> CleanStrings(js[0]) && CleanAll(js[1..])
  }

  predicate CleanPairs(ps: seq<Pair>)
    decreases ps
  {
    ps != [] ==> CleanStrings(ps[0].val) && CleanPairs(ps[1..])
  }

  // ---------------------------------------------------------------- the small pieces

  lemma {:induction false} TrimTabs(n: nat, x: bytes)
    requires x != [] && !IsSpace(x[0])
    ensures Trim(Tabs(n) + x) == x
  {
    if n == 0 {
      assert Tabs(n) + x == x;
    } else {
      var t := Tabs(n) + x;
      assert t[1..][1..] == Tabs(n - 1) + x && t[0] == t[1..][0] == SPACE;
      TrimTabs(n - 1, x);
    }
  }

  lemma TrimGap(spaced: bool, tabs: nat, x: bytes)
    requires x != [] && !IsSpace(x[0])
    ensures Trim(Gap(spaced, tabs) + x) == x
  {
    var t := Gap(spaced, tabs) + x;
    if spaced {
      assert t[0] == NEWLINE && t[1..] == Tabs(tabs) + x;
      TrimTabs(tabs, x);
    } else {
      assert t == x;
    }
  }

  lemma NumberComesBack(nums: Numerals, n: Double, rest: bytes)
    requires NumberOk(nums, n) && Stops(rest)
    ensures CStr(nums.show(n)) == nums.show(n) && Value(nums, nums.show(n) + rest) == Good(Number(n), rest)
  {
    hide IsNumber;
    hide Value;
    hide CStr;
    var t := nums.show(n);
    NumberChars(t);
    NoNul(t);
    NumberIsRead(nums, t, n, rest);
  }

  /** What a value's text may start with. */
  predicate Starts(s: bytes) {
    s != [] && !IsSpace(s[0]) && s[0] != CLOSE_LIST && s[0] != CLOSE_OBJECT
  }

  lemma PrintStarts(nums: Numerals, j: Json, spaced: bool, tabs: nat)
    requires NumbersOk(nums, j)
    ensures Starts(Print(nums, j, spaced, tabs))
  {
    if j.Number? {
      var t := nums.show(j.n);
      NumberChars(t);
      NoNul(t);
    }
  }

  // ---------------------------------------------------------------- lists and objects

  /** The end of a list or an object, and what follows. */
  function Closing(spaced: bool, tabs: nat, close: byte, rest: bytes): bytes {
    Gap(spaced, tabs) + ([close] + rest)
  }

  lemma ClosingTrimmed(spaced: bool, tabs: nat, close: byte, rest: bytes)
    requires close == CLOSE_LIST || close == CLOSE_OBJECT
    ensures Trim(Closing(spaced, tabs, close, rest)) == [close] + rest
    ensures Stops(Closing(spaced, tabs, close, rest))
  {
    TrimGap(spaced, tabs, [close] + rest);
  }

  /** The remaining items of a list, as the text to read next. */
  lemma ItemsFollow(nums: Numerals, js: seq<Json>, spaced: bool, tabs: nat, first: bool, end: bytes)
    requires js != []
    ensures PrintItems(nums, js, spaced, tabs, first) + end
         == Comma(first) + (Gap(spaced, tabs + 1) + (Print(nums, js[0], spaced, tabs + 1)
                                                     + (PrintItems(nums, js[1..], spaced, tabs, false) + end)))
  {
    Regroup(Comma(first), Gap(spaced, tabs + 1), Print(nums, js[0], spaced, tabs + 1),
            PrintItems(nums, js[1..], spaced, tabs, false), end);
  }

  lemma ItemsStop(nums: Numerals, js: seq<Json>, spaced: bool, tabs: nat, end: bytes)
    requires Stops(end)
    ensures Stops(PrintItems(nums, js, spaced, tabs, false) + end)
  {
    if js == [] {
      assert [] + end == end;
    }
  }

  /** Reads the separator before an item and the item itself. */
  lemma ItemRead(nums: Numerals, text: bytes, spaced: bool, tabs: nat, tail: bytes, js: seq<Json>)
    requires Starts(text)
    ensures var s := [COMMA] + (Gap(spaced, tabs + 1) + (text + tail));
            var r := Value(nums, text + tail);
            Items(nums, s, js) == if r.Good? then Items(nums, r.rest, js + [r.value]) else SyntaxError
  {
    hide Value;
    hide Gap;
    var s := [COMMA] + (Gap(spaced, tabs + 1) + (text + tail));
    assert s[1..] == Gap(spaced, tabs + 1) + (text + tail);
    TrimGap(spaced, tabs + 1, text + tail);
  }

  lemma ItemsEnd(nums: Numerals, spaced: bool, tabs: nat, rest: bytes, read: seq<Json>)
    ensures Items(nums, Closing(spaced, tabs, CLOSE_LIST, rest), read) == Good(List(read), rest)
  {
    hide Value;
    hide Closing;
    ClosingTrimmed(spaced, tabs, CLOSE_LIST, rest);
    assert ([CLOSE_LIST] + rest)[1..] == rest;
  }

  lemma {:induction false} ItemsComeBack(nums: Numerals, js: seq<Json>, spaced: bool, tabs: nat, rest: bytes, read: seq<Json>)
    requires AllPrintable(nums, js)
    ensures Items(nums, PrintItems(nums, js, spaced, tabs, false) + Closing(spaced, tabs, CLOSE_LIST, rest), read)
         == if QuoteInsideAny(js) then SyntaxError else Good(List(read + KeptAll(js)), rest)
    decreases js, 0
  {
    hide Value;
    hide Items;
    hide Print;
    hide Gap;
    hide Trim;
    hide Closing;
    hide NumbersOk;
    hide DistinctKeys;
    hide CleanKeys;
    hide QuoteInside;
    hide Kept;
    var end := Closing(spaced, tabs, CLOSE_LIST, rest);
    ClosingTrimmed(spaced, tabs, CLOSE_LIST, rest);
    if js == [] {
      assert PrintItems(nums, js, spaced, tabs, false) + end == end && read + [] == read;
      ItemsEnd(nums, spaced, tabs, rest, read);
    } else {
      var tail := PrintItems(nums, js[1..], spaced, tabs, false) + end;
      var text := Print(nums, js[0], spaced, tabs + 1);
      ItemsFollow(nums, js, spaced, tabs, false, end);
      PrintStarts(nums, js[0], spaced, tabs + 1);
      ItemRead(nums, text, spaced, tabs, tail, read);
      ItemsStop(nums, js[1..], spaced, tabs, end);
      ComesBack(nums, js[0], spaced, tabs + 1, tail);
      if !QuoteInside(js[0]) {
        ItemsComeBack(nums, js[1..], spaced, tabs, rest, read + [Kept(js[0])]);
        Assoc(read, [Kept(js[0])], KeptAll(js[1..]));
      }
    }
  }

  lemma {:induction false} ComesBack(nums: Numerals, j: Json, spaced: bool, tabs: nat, rest: bytes)
    requires Printable(nums, j) && Stops(rest)
    ensures Value(nums, Print(nums, j, spaced, tabs) + rest)
         == if QuoteInside(j) then SyntaxError else Good(Kept(j), rest)
    decreases j, 1
  {
    hide Value;
    match j
    case Null => ConstComesBack(nums, j, rest);
    case Boolean(_) => ConstComesBack(nums, j, rest);
    case Number(n) => NumberComesBack(nums, n, rest);
    case Str(s) => StringValueComesBack(nums, s, rest);
    case List(js) => ListComesBack(nums, js, spaced, tabs, rest);
    case Object(ps) => ObjectComesBack(nums, ps, spaced, tabs, rest);
  }

  lemma ConstComesBack(nums: Numerals, j: Json, rest: bytes)
    requires j.Null? || j.Boolean?
    ensures Value(nums, Print(nums, j, false, 0) + rest) == Good(j, rest)
  {
    hide Expect;
    hide Kvp;
    hide Items;
    hide Pairs;
    hide Quoted;
    Expected(Print(nums, j, false, 0), rest);
  }

  lemma StringValueComesBack(nums: Numerals, s: bytes, rest: bytes)
    ensures Value(nums, [QUOTE] + EscapeString(s) + [QUOTE] + rest)
         == if QuoteIn(s) then SyntaxError else Good(Str(KeptString(s)), rest)
  {
    var t := [QUOTE] + EscapeString(s) + [QUOTE] + rest;
    assert t[1..] == EscapeString(s) + [QUOTE] + rest;
    StringComesBack(s, rest, []);
    assert [] + KeptString(s) == KeptString(s);
  }

  lemma ListText(nums: Numerals, js: seq<Json>, spaced: bool, tabs: nat, rest: bytes)
    ensures Print(nums, List(js), spaced, tabs) + rest
         == [OPEN_LIST] + (PrintItems(nums, js, spaced, tabs, true) + Closing(spaced, tabs, CLOSE_LIST, rest))
  {
    var items := PrintItems(nums, js, spaced, tabs, true);
    Regroup([OPEN_LIST], items, Gap(spaced, tabs), [CLOSE_LIST], rest);
  }

  lemma ListOpened(nums: Numerals, s: bytes)
    ensures var t := Trim(s);
            Value(nums, [OPEN_LIST] + s) == if t == [] then SyntaxError
                                            else if t[0] == CLOSE_LIST then Good(List([]), t[1..])
                                            else
                                              var r := Value(nums, t);
                                              if r.Good? then Items(nums, r.rest, [r.value]) else SyntaxError
  {
    hide Items;
    hide Trim;
    assert ([OPEN_LIST] + s)[1..] == s;
  }

  lemma {:induction false} ListComesBack(nums: Numerals, js: seq<Json>, spaced: bool, tabs: nat, rest: bytes)
    requires AllPrintable(nums, js)
    ensures Value(nums, Print(nums, List(js), spaced, tabs) + rest)
         == if QuoteInsideAny(js) then SyntaxError else Good(List(KeptAll(js)), rest)
    decreases js, 1
  {
    var end := Closing(spaced, tabs, CLOSE_LIST, rest);
    ListText(nums, js, spaced, tabs, rest);
    ListOpened(nums, PrintItems(nums, js, spaced, tabs, true) + end);
    hide Value;
    hide Items;
    hide Print;
    hide Gap;
    hide Trim;
    hide Closing;
    hide NumbersOk;
    hide DistinctKeys;
    hide CleanKeys;
    hide QuoteInside;
    hide Kept;
    ClosingTrimmed(spaced, tabs, CLOSE_LIST, rest);
    if js == [] {
      assert PrintItems(nums, js, spaced, tabs, true) + end == end && ([CLOSE_LIST] + rest)[1..] == rest;
    } else {
      var tail := PrintItems(nums, js[1..], spaced, tabs, false) + end;
      var text := Print(nums, js[0], spaced, tabs + 1);
      ItemsFollow(nums, js, spaced, tabs, true, end);
      PrintStarts(nums, js[0], spaced, tabs + 1);
      assert [] + (Gap(spaced, tabs + 1) + (text + tail)) == Gap(spaced, tabs + 1) + (text + tail);
      TrimGap(spaced, tabs + 1, text + tail);
      ItemsStop(nums, js[1..], spaced, tabs, end);
      ComesBack(nums, js[0], spaced, tabs + 1, tail);
      if !QuoteInside(js[0]) {
        ItemsComeBack(nums, js[1..], spaced, tabs, rest, [Kept(js[0])]);
      }
    }
  }

  // ---------------------------------------------------------------- objects

  lemma PairsFollow(nums: Numerals, ps: seq<Pair>, spaced: bool, tabs: nat, first: bool, end: bytes)
    requires ps != []
    ensures PrintPairs(nums, ps, spaced, tabs, first) + end
         == Comma(first) + (Gap(spaced, tabs + 1) + (PairText(nums, ps[0], spaced, tabs)
                                                     + (PrintPairs(nums, ps[1..], spaced, tabs, false) + end)))
  {
    Assoc(Comma(first) + Gap(spaced, tabs + 1), PrintKey(ps[0].key, spaced), Print(nums, ps[0].val, spaced, tabs + 1));
    Regroup(Comma(first), Gap(spaced, tabs + 1), PairText(nums, ps[0], spaced, tabs),
            PrintPairs(nums, ps[1..], spaced, tabs, false), end);
  }

  function PairText(nums: Numerals, p: Pair, spaced: bool, tabs: nat): bytes {
    PrintKey(p.key, spaced) + Print(nums, p.val, spaced, tabs + 1)
  }

  lemma PairsStop(nums: Numerals, ps: seq<Pair>, spaced: bool, tabs: nat, end: bytes)
    requires Stops(end)
    ensures Stops(PrintPairs(nums, ps, spaced, tabs, false) + end)
  {
    if ps == [] {
      assert [] + end == end;
    }
  }

  function Space(spaced: bool): bytes {
    if spaced then [SPACE] else []
  }

  lemma KeyText(key: bytes, spaced: bool, text: bytes)
    ensures PrintKey(key, spaced) + text == [QUOTE] + (CStr(key) + [QUOTE] + ([COLON] + (Space(spaced) + text)))
  {
    hide CStr;
    var raw := CStr(key);
    Assoc([QUOTE], raw, [QUOTE, COLON]);
    var end := [QUOTE] + ([COLON] + (Space(spaced) + text));
    assert [QUOTE, COLON] + Space(spaced) + text == end;
    Assoc([QUOTE] + raw, [QUOTE, COLON] + Space(spaced), text);
    Assoc([QUOTE] + raw, [QUOTE, COLON], Space(spaced));
    Assoc([QUOTE], raw, end);
    Assoc(raw, [QUOTE], [COLON] + (Space(spaced) + text));
  }

  lemma KeyQuoted(key: bytes, spaced: bool, text: bytes)
    requires CleanKey(key)
    ensures Quoted(PrintKey(key, spaced) + text) == Good(key, [COLON] + (Space(spaced) + text))
  {
    hide CleanKey;
    hide Chars;
    hide CStr;
    hide Space;
    var after := [COLON] + (Space(spaced) + text);
    var s := PrintKey(key, spaced) + text;
    CleanComesBack(key, after, []);
    KeyText(key, spaced, text);
    assert s[1..] == key + [QUOTE] + after;
    assert [] + key == key;
  }

  lemma SpaceTrimmed(spaced: bool, text: bytes)
    requires Starts(text)
    ensures Trim(Space(spaced) + text) == text
  {
    var s := Space(spaced) + text;
    if spaced {
      assert s[1..] == text;
    } else {
      assert s == text;
    }
  }

  /** A clean key, the colon, and what is between them and the value. */
  lemma KeyRead(nums: Numerals, key: bytes, spaced: bool, text: bytes)
    requires CleanKey(key) && Starts(text)
    ensures var r := Value(nums, text);
            Kvp(nums, PrintKey(key, spaced) + text) == if r.Good? then Good(Pair(key, r.value), r.rest) else SyntaxError
  {
    hide Value;
    hide CleanKey;
    hide Quoted;
    hide PrintKey;
    hide Space;
    KeyQuoted(key, spaced, text);
    SpaceTrimmed(spaced, text);
    assert ([COLON] + (Space(spaced) + text))[1..] == Space(spaced) + text;
  }

  lemma PairRead(nums: Numerals, p: Pair, spaced: bool, tabs: nat, tail: bytes, ps: seq<Pair>)
    requires CleanKey(p.key) && Printable(nums, p.val)
    ensures var s := [COMMA] + (Gap(spaced, tabs + 1) + (PairText(nums, p, spaced, tabs) + tail));
            var r := Value(nums, Print(nums, p.val, spaced, tabs + 1) + tail);
            Pairs(nums, s, ps) == if r.Good? then Pairs(nums, r.rest, Put(ps, Pair(p.key, r.value))) else SyntaxError
  {
    hide Value;
    hide Gap;
    hide Kvp;
    var text := PairText(nums, p, spaced, tabs);
    var s := [COMMA] + (Gap(spaced, tabs + 1) + (text + tail));
    PrintStarts(nums, p.val, spaced, tabs + 1);
    Assoc(PrintKey(p.key, spaced), Print(nums, p.val, spaced, tabs + 1), tail);
    KeyRead(nums, p.key, spaced, Print(nums, p.val, spaced, tabs + 1) + tail);
    assert s[1..] == Gap(spaced, tabs + 1) + (text + tail);
    TrimGap(spaced, tabs + 1, text + tail);
  }

  /** No key of `ps` is among those of `read`. */
  predicate NewKeys(read: seq<Pair>, ps: seq<Pair>) {
    ps != [] ==> !HasKey(read, ps[0].key) && NewKeys(read, ps[1..])
  }

  lemma {:induction false} PutNew(ps: seq<Pair>, p: Pair)
    requires !HasKey(ps, p.key)
    ensures Put(ps, p) == ps + [p]
  {
    if ps != [] {
      PutNew(ps[1..], p);
      assert [ps[0]] + (ps[1..] + [p]) == ps + [p];
    }
  }

  lemma {:induction false} HasKeyAdded(ps: seq<Pair>, p: Pair, key: bytes)
    ensures HasKey(ps + [p], key) <==> HasKey(ps, key) || p.key == key
  {
    if ps != [] {
      assert (ps + [p])[1..] == ps[1..] + [p];
      HasKeyAdded(ps[1..], p, key);
    } else {
      assert ps + [p] == [p] && [p][1..] == [];
    }
  }

  lemma {:induction false} StillNewKeys(read: seq<Pair>, p: Pair, ps: seq<Pair>)
    requires NewKeys(read, ps) && !HasKey(ps, p.key)
    ensures NewKeys(read + [p], ps)
  {
    if ps != [] {
      HasKeyAdded(read, p, ps[0].key);
      StillNewKeys(read, p, ps[1..]);
    }
  }

  lemma PairsEnd(nums: Numerals, spaced: bool, tabs: nat, rest: bytes, read: seq<Pair>)
    ensures Pairs(nums, Closing(spaced, tabs, CLOSE_OBJECT, rest), read) == Good(Object(read), rest)
  {
    hide Kvp;
    hide Closing;
    ClosingTrimmed(spaced, tabs, CLOSE_OBJECT, rest);
    assert ([CLOSE_OBJECT] + rest)[1..] == rest;
  }

  lemma {:induction false} PairsComeBack(nums: Numerals, ps: seq<Pair>, spaced: bool, tabs: nat, rest: bytes, read: seq<Pair>)
    requires PairsPrintable(nums, ps) && NewKeys(read, ps)
    ensures Pairs(nums, PrintPairs(nums, ps, spaced, tabs, false) + Closing(spaced, tabs, CLOSE_OBJECT, rest), read)
         == if QuoteInsidePairs(ps) then SyntaxError else Good(Object(read + KeptPairs(ps)), rest)
    decreases ps, 0
  {
    hide Value;
    hide Pairs;
    hide Print;
    hide Gap;
    hide Trim;
    hide Closing;
    hide NumbersOk;
    hide DistinctKeys;
    hide CleanKeys;
    hide QuoteInside;
    hide Kept;
    var end := Closing(spaced, tabs, CLOSE_OBJECT, rest);
    ClosingTrimmed(spaced, tabs, CLOSE_OBJECT, rest);
    if ps == [] {
      assert PrintPairs(nums, ps, spaced, tabs, false) + end == end && read + [] == read;
      PairsEnd(nums, spaced, tabs, rest, read);
    } else {
      var tail := PrintPairs(nums, ps[1..], spaced, tabs, false) + end;
      PairsFollow(nums, ps, spaced, tabs, false, end);
      PairRead(nums, ps[0], spaced, tabs, tail, read);
      PairsStop(nums, ps[1..], spaced, tabs, end);
      ComesBack(nums, ps[0].val, spaced, tabs + 1, tail);
      if !QuoteInside(ps[0].val) {
        var p := Pair(ps[0].key, Kept(ps[0].val));
        PutNew(read, p);
        StillNewKeys(read, p, ps[1..]);
        PairsComeBack(nums, ps[1..], spaced, tabs, rest, read + [p]);
        Assoc(read, [p], KeptPairs(ps[1..]));
      }
    }
  }

  lemma ObjectText(nums: Numerals, ps: seq<Pair>, spaced: bool, tabs: nat, rest: bytes)
    ensures Print(nums, Object(ps), spaced, tabs) + rest
         == [OPEN_OBJECT] + (PrintPairs(nums, ps, spaced, tabs, true) + Closing(spaced, tabs, CLOSE_OBJECT, rest))
  {
    var pairs := PrintPairs(nums, ps, spaced, tabs, true);
    Regroup([OPEN_OBJECT], pairs, Gap(spaced, tabs), [CLOSE_OBJECT], rest);
  }

  lemma ObjectOpened(nums: Numerals, s: bytes)
    ensures var t := Trim(s);
            Value(nums, [OPEN_OBJECT] + s) == if t == [] then SyntaxError
                                              else if t[0] == CLOSE_OBJECT then Good(Object([]), t[1..])
                                              else
                                                var r := Kvp(nums, t);
                                                if r.Good? then Pairs(nums, r.rest, [r.value]) else SyntaxError
  {
    hide Pairs;
    hide Kvp;
    hide Trim;
    assert ([OPEN_OBJECT] + s)[1..] == s;
  }

  lemma {:induction false} ObjectComesBack(nums: Numerals, ps: seq<Pair>, spaced: bool, tabs: nat, rest: bytes)
    requires PairsPrintable(nums, ps)
    ensures Value(nums, Print(nums, Object(ps), spaced, tabs) + rest)
         == if QuoteInsidePairs(ps) then SyntaxError else Good(Object(KeptPairs(ps)), rest)
    decreases ps, 1
  {
    var end := Closing(spaced, tabs, CLOSE_OBJECT, rest);
    ObjectText(nums, ps, spaced, tabs, rest);
    ObjectOpened(nums, PrintPairs(nums, ps, spaced, tabs, true) + end);
    hide Value;
    hide Pairs;
    hide Print;
    hide Gap;
    hide Trim;
    hide Closing;
    hide NumbersOk;
    hide DistinctKeys;
    hide CleanKeys;
    hide QuoteInside;
    hide Kept;
    hide Kvp;
    ClosingTrimmed(spaced, tabs, CLOSE_OBJECT, rest);
    if ps == [] {
      assert PrintPairs(nums, ps, spaced, tabs, true) + end == end && ([CLOSE_OBJECT] + rest)[1..] == rest;
    } else {
      var tail := PrintPairs(nums, ps[1..], spaced, tabs, false) + end;
      var text := Print(nums, ps[0].val, spaced, tabs + 1);
      var pair := PairText(nums, ps[0], spaced, tabs) + tail;
      PairsFollow(nums, ps, spaced, tabs, true, end);
      assert [] + (Gap(spaced, tabs + 1) + pair) == Gap(spaced, tabs + 1) + pair;
      PrintStarts(nums, ps[0].val, spaced, tabs + 1);
      Assoc(PrintKey(ps[0].key, spaced), text, tail);
      TrimGap(spaced, tabs + 1, pair);
      KeyRead(nums, ps[0].key, spaced, text + tail);
      PairsStop(nums, ps[1..], spaced, tabs, end);
      ComesBack(nums, ps[0].val, spaced, tabs + 1, tail);
      if !QuoteInside(ps[0].val) {
        var p := Pair(ps[0].key, Kept(ps[0].val));
        NoneRead(ps[1..]);
        StillNewKeys([], p, ps[1..]);
        assert [] + [p] == [p];
        PairsComeBack(nums, ps[1..], spaced, tabs, rest, [p]);
      }
    }
  }

  lemma {:induction false} NoneRead(ps: seq<Pair>)
    ensures NewKeys([], ps)
  {
    if ps != [] {
      NoneRead(ps[1..]);
    }
  }

  // ---------------------------------------------------------------- the round trip

  lemma {:induction false} CleanIsKeptWhole(j: Json)
    ensures CleanStrings(j) <==> !QuoteInside(j) && Kept(j) == j
    decreases j, 1
  {
    match j
    case Str(s) => CleanIsKept(s);
    case List(js) => CleanItemsAreKept(js);
    case Object(ps) => CleanPairsAreKept(ps);
    case _ =>
  }

  lemma {:induction false} CleanItemsAreKept(js: seq<Json>)
    ensures CleanAll(js) <==> !QuoteInsideAny(js) && KeptAll(js) == js
    decreases js, 0
  {
    if js != [] {
      CleanIsKeptWhole(js[0]);
      CleanItemsAreKept(js[1..]);
      assert js == [js[0]] + js[1..];
      assert KeptAll(js)[0] == Kept(js[0]) && KeptAll(js)[1..] == KeptAll(js[1..]);
    }
  }

  lemma {:induction false} CleanPairsAreKept(ps: seq<Pair>)
    ensures CleanPairs(ps) <==> !QuoteInsidePairs(ps) && KeptPairs(ps) == ps
    decreases ps, 0
  {
    if ps != [] {
      CleanIsKeptWhole(ps[0].val);
      CleanPairsAreKept(ps[1..]);
      assert ps == [ps[0]] + ps[1..];
      assert KeptPairs(ps)[0] == Pair(ps[0].key, Kept(ps[0].val)) && KeptPairs(ps)[1..] == KeptPairs(ps[1..]);
    }
  }
}
