/**
 * What the parser of chjson/src/parser.c leaves allocated. A pair whose key an object already has replaces the old
 * value without deleting it, and its own key is not kept either (chjson/src/parser.c:422-436,
 * chutil/src/map.c:138-143).
 */
module JsonOwnership {
  import opened Bytes
  import opened Json
  import opened JsonEquality
  import opened JsonLexis
  import opened JsonStrings
  import opened JsonTheorems

  /** `null` is static. Any other value counts as one, with its list or map; so does every string, keys included. */
  function Owned(j: Json): nat
    decreases j
  {
    match j
    case Null => 0
    case Boolean(_) => 1
    case Number(_) => 1
    case Str(_) => 2
    case List(js) => 1 + OwnedAll(js)
    case Object(ps) => 1 + OwnedPairs(ps)
  }

  function OwnedAll(js: seq<Json>): nat
    decreases js
  {
    if js == [] then 0 else Owned(js[0]) + OwnedAll(js[1..])
  }

  function OwnedPairs(ps: seq<Pair>): nat
    decreases ps
  {
    if ps == [] then 0 else 1 + Owned(ps[0].val) + OwnedPairs(ps[1..])
  }

  lemma {:induction false} OwnedAllAppend(js: seq<Json>, js': seq<Json>)
    ensures OwnedAll(js + js') == OwnedAll(js) + OwnedAll(js')
  {
    if js == [] {
      assert js + js' == js';
    } else {
      OwnedAllAppend(js[1..], js');
      assert (js + js')[1..] == js[1..] + js';
    }
  }

  lemma {:induction false} OwnedPairsAppend(ps: seq<Pair>, p: Pair)
    ensures OwnedPairs(ps + [p]) == OwnedPairs(ps) + 1 + Owned(p.val)
  {
    if ps == [] {
      assert ps + [p] == [p];
    } else {
      OwnedPairsAppend(ps[1..], p);
      assert (ps + [p])[1..] == ps[1..] + [p];
    }
  }

  /** What putting `p` into a map makes unreachable: the old value and the new key. */
  function Dropped(ps: seq<Pair>, p: Pair): nat {
    match Lookup(ps, p.key)
    case None => 0
    case Some(j) => 1 + Owned(j)
  }

  lemma {:induction false} PutConserves(ps: seq<Pair>, p: Pair)
    ensures OwnedPairs(Put(ps, p)) + Dropped(ps, p) == OwnedPairs(ps) + 1 + Owned(p.val)
    ensures Lookup(ps, p.key).None? ==> Put(ps, p) == ps + [p]
  {
    if ps != [] && ps[0].key != p.key {
      PutConserves(ps[1..], p);
    }
  }

  // ---------------------------------------------------------------- what reading loses

  /** What is unreachable after `Value` has been read, or has failed and has been cleaned up. */
  function Lost(nums: Numerals, s: bytes): nat
    decreases |s|, 1
  {
    if s == [] || (s[0] != OPEN_OBJECT && s[0] != OPEN_LIST) then 0
    else
      var t := Trim(s[1..]);
      if s[0] == OPEN_OBJECT then
        if t == [] || t[0] == CLOSE_OBJECT then 0
        else
          LostInKvp(nums, t)
          + match Kvp(nums, t)
            case SyntaxError => 0
            case Good(p, rest) => LostInPairs(nums, rest, [p])
      else if t == [] || t[0] == CLOSE_LIST then 0
      else
        Lost(nums, t)
        + match Value(nums, t)
          case SyntaxError => 0
          case Good(_, rest) => LostInItems(nums, rest)
  }

  function LostInItems(nums: Numerals, s: bytes): nat
    decreases |s|, 2
  {
    var t := Trim(s);
    if t == [] || t[0] != COMMA then 0
    else
      Lost(nums, Trim(t[1..]))
      + match Value(nums, Trim(t[1..]))
        case SyntaxError => 0
        case Good(_, rest) => LostInItems(nums, rest)
  }

  function LostInKvp(nums: Numerals, s: bytes): nat
    decreases |s|, 2
  {
    match Quoted(s)
    case SyntaxError => 0
    case Good(_, r) =>
      var t := Trim(r);
      if t == [] || t[0] != COLON then 0 else Lost(nums, Trim(t[1..]))
  }

  function LostInPairs(nums: Numerals, s: bytes, ps: seq<Pair>): nat
    decreases |s|, 2
  {
    var t := Trim(s);
    if t == [] || t[0] != COMMA then 0
    else
      LostInKvp(nums, Trim(t[1..]))
      + match Kvp(nums, Trim(t[1..]))
        case SyntaxError => 0
        case Good(p, rest) => Dropped(ps, p) + LostInPairs(nums, rest, Put(ps, p))
  }

  lemma ListBegins(nums: Numerals, s: bytes)
    requires s != [] && s[0] == OPEN_LIST
    ensures var t := Trim(s[1..]);
            if t == [] then
              Value(nums, s) == SyntaxError && Lost(nums, s) == 0
            else if t[0] == CLOSE_LIST then
              Value(nums, s) == Good(List([]), t[1..]) && Lost(nums, s) == 0
            else
              var r := Value(nums, t);
              && Value(nums, s) == (if r.Good? then Items(nums, r.rest, [r.value]) else SyntaxError)
              && Lost(nums, s) == Lost(nums, t) + if r.Good? then LostInItems(nums, r.rest) else 0
  {
    hide Items;
    hide LostInItems;
  }

  lemma ItemsGoOn(nums: Numerals, s: bytes, l: seq<Json>)
    ensures var t := Trim(s);
            if t == [] || (t[0] != CLOSE_LIST && t[0] != COMMA) then
              Items(nums, s, l) == SyntaxError && LostInItems(nums, s) == 0
            else if t[0] == CLOSE_LIST then
              Items(nums, s, l) == Good(List(l), t[1..]) && LostInItems(nums, s) == 0
            else
              var next := Trim(t[1..]);
              var r := Value(nums, next);
              && Items(nums, s, l) == (if r.Good? then Items(nums, r.rest, l + [r.value]) else SyntaxError)
              && LostInItems(nums, s) == Lost(nums, next) + if r.Good? then LostInItems(nums, r.rest) else 0
  {
  }

  // ---------------------------------------------------------------- what the text says

  /** What a text says, with every pair of every object; of a text that breaks off, the values that it has begun. */
  datatype Text<+T> = Whole(raw: T, rest: bytes) | Broken(seen: seq<Json>)

  function RawValue(nums: Numerals, s: bytes): (r: Text<Json>)
    ensures r.Whole? ==> |r.rest| < |s|
    decreases |s|, 1
  {
    if s == [] || (s[0] != OPEN_OBJECT && s[0] != OPEN_LIST) then
      match Value(nums, s)
      case SyntaxError => Broken([])
      case Good(j, rest) => Whole(j, rest)
    else
      var t := Trim(s[1..]);
      if t == [] then Broken([])
      else if s[0] == OPEN_OBJECT then
        if t[0] == CLOSE_OBJECT then Whole(Object([]), t[1..])
        else
          match RawKvp(nums, t)
          case Broken(seen) => Broken(seen)
          case Whole(p, rest) => RawPairs(nums, rest, [p])
      else if t[0] == CLOSE_LIST then Whole(List([]), t[1..])
      else
        match RawValue(nums, t)
        case Broken(seen) => Broken(seen)
        case Whole(j, rest) => RawItems(nums, rest, [j])
  }

  function RawItems(nums: Numerals, s: bytes, js: seq<Json>): (r: Text<Json>)
    ensures r.Whole? ==> |r.rest| < |s|
    decreases |s|, 2
  {
    var t := Trim(s);
    if t == [] then Broken(js)
    else if t[0] == CLOSE_LIST then Whole(List(js), t[1..])
    else if t[0] != COMMA then Broken(js)
    else
      match RawValue(nums, Trim(t[1..]))
      case Broken(seen) => Broken(js + seen)
      case Whole(j, rest) => RawItems(nums, rest, js + [j])
  }

  function RawKvp(nums: Numerals, s: bytes): (r: Text<Pair>)
    ensures r.Whole? ==> |r.rest| < |s|
    decreases |s|, 2
  {
    match Quoted(s)
    case SyntaxError => Broken([])
    case Good(key, r) =>
      var t := Trim(r);
      if t == [] || t[0] != COLON then Broken([])
      else
        match RawValue(nums, Trim(t[1..]))
        case Broken(seen) => Broken(seen)
        case Whole(j, rest) => Whole(Pair(key, j), rest)
  }

  function RawPairs(nums: Numerals, s: bytes, ps: seq<Pair>): (r: Text<Json>)
    ensures r.Whole? ==> |r.rest| < |s|
    decreases |s|, 2
  {
    var t := Trim(s);
    if t == [] then Broken([Object(ps)])
    else if t[0] == CLOSE_OBJECT then Whole(Object(ps), t[1..])
    else if t[0] != COMMA then Broken([Object(ps)])
    else
      match RawKvp(nums, Trim(t[1..]))
      case Broken(seen) => Broken([Object(ps)] + seen)
      case Whole(p, rest) => RawPairs(nums, rest, ps + [p])
  }

  /** No object of the text has a key twice, as far as it goes. */
  predicate NoRepeats(text: Text<Json>) {
    match text
    case Whole(j, _) => DistinctKeys(j)
    case Broken(seen) => AllDistinct(seen)
  }

  // ---------------------------------------------------------------- conservation

  /** What was read of a text, and lost, is what the text says. */
  ghost predicate Accounts(text: Text<Json>, read: Reading<Json>, lost: nat) {
    && (NoRepeats(text) <==> lost == 0)
    && match read
       case SyntaxError => text.Broken?
       case Good(j, rest) =>
         && text.Whole? && text.rest == rest && Owned(text.raw) == Owned(j) + lost && (lost == 0 ==> text.raw == j)
  }

  ghost predicate AccountsPair(text: Text<Pair>, read: Reading<Pair>, lost: nat) {
    match read
    case SyntaxError => text.Broken? && (AllDistinct(text.seen) <==> lost == 0)
    case Good(p, rest) =>
      && text.Whole? && text.rest == rest && text.raw.key == p.key
      && (DistinctKeys(text.raw.val) <==> lost == 0)
      && Owned(text.raw.val) == Owned(p.val) + lost && (lost == 0 ==> text.raw == p)
  }

  /** A value that reads as it stands has lost nothing on the way, and the other way round. */
  lemma {:induction false} Conservation(nums: Numerals, s: bytes)
    ensures Accounts(RawValue(nums, s), Value(nums, s), Lost(nums, s))
    decreases |s|, 1
  {
    if s == [] || (s[0] != OPEN_OBJECT && s[0] != OPEN_LIST) {
      if Value(nums, s).Good? {
        ValueDistinct(nums, s);
      }
    } else {
      var t := Trim(s[1..]);
      if t != [] {
        if s[0] == OPEN_OBJECT && t[0] != CLOSE_OBJECT {
          KvpConservation(nums, t);
          if Kvp(nums, t).Good? {
            PairsConservation(nums, Kvp(nums, t).rest, [RawKvp(nums, t).raw], [Kvp(nums, t).value], LostInKvp(nums, t));
          }
        } else if s[0] == OPEN_LIST && t[0] != CLOSE_LIST {
          Conservation(nums, t);
          if Value(nums, t).Good? {
            ItemsConservation(nums, Value(nums, t).rest, [RawValue(nums, t).raw], [Value(nums, t).value], Lost(nums, t));
          }
        }
      }
    }
  }

  lemma {:induction false} KvpConservation(nums: Numerals, s: bytes)
    ensures AccountsPair(RawKvp(nums, s), Kvp(nums, s), LostInKvp(nums, s))
    decreases |s|, 2
  {
    if Quoted(s).Good? {
      var t := Trim(Quoted(s).rest);
      if t != [] && t[0] == COLON {
        Conservation(nums, Trim(t[1..]));
      }
    }
  }

  lemma {:induction false} AllDistinctAppend(js: seq<Json>, js': seq<Json>)
    ensures AllDistinct(js + js') <==> AllDistinct(js) && AllDistinct(js')
  {
    if js == [] {
      assert js + js' == js';
    } else {
      AllDistinctAppend(js[1..], js');
      assert (js + js')[1..] == js[1..] + js';
    }
  }

  lemma {:induction false} LookupAppend(ps: seq<Pair>, p: Pair, key: bytes)
    ensures Lookup(ps + [p], key).None? <==> Lookup(ps, key).None? && key != p.key
  {
    if ps == [] {
      assert ps + [p] == [p];
    } else {
      LookupAppend(ps[1..], p, key);
      assert (ps + [p])[1..] == ps[1..] + [p];
    }
  }

  lemma {:induction false} PairsDistinctAppend(ps: seq<Pair>, p: Pair)
    ensures PairsDistinct(ps + [p]) <==> PairsDistinct(ps) && DistinctKeys(p.val) && Lookup(ps, p.key).None?
  {
    if ps == [] {
      assert ps + [p] == [p];
    } else {
      PairsDistinctAppend(ps[1..], p);
      LookupAppend(ps[1..], p, ps[0].key);
      assert (ps + [p])[1..] == ps[1..] + [p];
    }
  }

  /** `lost` is what has been lost before, while `js` were read of `raw`. */
  lemma {:induction false} ItemsConservation(nums: Numerals, s: bytes, raw: seq<Json>, js: seq<Json>, lost: nat)
    requires AllDistinct(raw) <==> lost == 0
    requires OwnedAll(raw) == OwnedAll(js) + lost && (lost == 0 ==> raw == js)
    ensures Accounts(RawItems(nums, s, raw), Items(nums, s, js), lost + LostInItems(nums, s))
    decreases |s|, 2
  {
    var t := Trim(s);
    if t != [] && t[0] == COMMA {
      var next := Trim(t[1..]);
      Conservation(nums, next);
      match Value(nums, next)
      case SyntaxError =>
        AllDistinctAppend(raw, RawValue(nums, next).seen);
      case Good(j, rest) =>
        var j' := RawValue(nums, next).raw;
        AllDistinctAppend(raw, [j']);
        OwnedAllAppend(raw, [j']);
        OwnedAllAppend(js, [j]);
        ItemsConservation(nums, rest, raw + [j'], js + [j], lost + Lost(nums, next));
    }
  }

  lemma {:induction false} PairsConservation(nums: Numerals, s: bytes, raw: seq<Pair>, ps: seq<Pair>, lost: nat)
    requires PairsDistinct(raw) <==> lost == 0
    requires OwnedPairs(raw) == OwnedPairs(ps) + lost && (lost == 0 ==> raw == ps)
    ensures Accounts(RawPairs(nums, s, raw), Pairs(nums, s, ps), lost + LostInPairs(nums, s, ps))
    decreases |s|, 2
  {
    var t := Trim(s);
    assert AllDistinct([Object(raw)]) <==> PairsDistinct(raw);
    if t != [] && t[0] == COMMA {
      var next := Trim(t[1..]);
      KvpConservation(nums, next);
      match Kvp(nums, next)
      case SyntaxError =>
        AllDistinctAppend([Object(raw)], RawKvp(nums, next).seen);
      case Good(p, rest) =>
        var p' := RawKvp(nums, next).raw;
        PairsDistinctAppend(raw, p');
        OwnedPairsAppend(raw, p');
        PutConserves(ps, p);
        PairsConservation(nums, rest, raw + [p'], Put(ps, p), lost + LostInKvp(nums, next) + Dropped(ps, p));
    }
  }

  // ---------------------------------------------------------------- printed text

  lemma ItemLost(nums: Numerals, text: bytes, spaced: bool, tabs: nat, tail: bytes)
    requires Starts(text)
    ensures var r := Value(nums, text + tail);
            LostInItems(nums, [COMMA] + (Gap(spaced, tabs + 1) + (text + tail)))
            == Lost(nums, text + tail) + if r.Good? then LostInItems(nums, r.rest) else 0
  {
    hide Value;
    hide Gap;
    hide Lost;
    var s := [COMMA] + (Gap(spaced, tabs + 1) + (text + tail));
    assert s[1..] == Gap(spaced, tabs + 1) + (text + tail);
    TrimGap(spaced, tabs + 1, text + tail);
  }

  lemma {:induction false} ItemsLoseNothing(nums: Numerals, js: seq<Json>, spaced: bool, tabs: nat, rest: bytes)
    requires AllPrintable(nums, js)
    ensures LostInItems(nums, PrintItems(nums, js, spaced, tabs, false) + Closing(spaced, tabs, CLOSE_LIST, rest)) == 0
    decreases js, 0
  {
    hide Value;
    hide Print;
    hide Gap;
    hide Closing;
    hide NumbersOk;
    hide DistinctKeys;
    hide CleanKeys;
    hide Lost;
    var end := Closing(spaced, tabs, CLOSE_LIST, rest);
    ClosingTrimmed(spaced, tabs, CLOSE_LIST, rest);
    if js == [] {
      assert PrintItems(nums, js, spaced, tabs, false) + end == end;
    } else {
      hide LostInItems;
      hide Trim;
      var tail := PrintItems(nums, js[1..], spaced, tabs, false) + end;
      var text := Print(nums, js[0], spaced, tabs + 1);
      ItemsFollow(nums, js, spaced, tabs, false, end);
      PrintStarts(nums, js[0], spaced, tabs + 1);
      ItemLost(nums, text, spaced, tabs, tail);
      ItemsStop(nums, js[1..], spaced, tabs, end);
      ComesBack(nums, js[0], spaced, tabs + 1, tail);
      PrintedLosesNothing(nums, js[0], spaced, tabs + 1, tail);
      ItemsLoseNothing(nums, js[1..], spaced, tabs, rest);
    }
  }

  lemma {:induction false} ListLosesNothing(nums: Numerals, js: seq<Json>, spaced: bool, tabs: nat, rest: bytes)
    requires AllPrintable(nums, js)
    ensures Lost(nums, Print(nums, List(js), spaced, tabs) + rest) == 0
    decreases js, 1
  {
    var end := Closing(spaced, tabs, CLOSE_LIST, rest);
    var s := PrintItems(nums, js, spaced, tabs, true) + end;
    ListText(nums, js, spaced, tabs, rest);
    assert ([OPEN_LIST] + s)[1..] == s;
    ListBegins(nums, [OPEN_LIST] + s);
    hide Value;
    hide Print;
    hide Gap;
    hide Trim;
    hide Closing;
    hide NumbersOk;
    hide DistinctKeys;
    hide CleanKeys;
    hide Lost;
    hide LostInItems;
    ClosingTrimmed(spaced, tabs, CLOSE_LIST, rest);
    if js == [] {
      assert s == end;
    } else {
      var tail := PrintItems(nums, js[1..], spaced, tabs, false) + end;
      var text := Print(nums, js[0], spaced, tabs + 1);
      ItemsFollow(nums, js, spaced, tabs, true, end);
      PrintStarts(nums, js[0], spaced, tabs + 1);
      assert [] + (Gap(spaced, tabs + 1) + (text + tail)) == Gap(spaced, tabs + 1) + (text + tail);
      TrimGap(spaced, tabs + 1, text + tail);
      ItemsStop(nums, js[1..], spaced, tabs, end);
      ComesBack(nums, js[0], spaced, tabs + 1, tail);
      PrintedLosesNothing(nums, js[0], spaced, tabs + 1, tail);
      ItemsLoseNothing(nums, js[1..], spaced, tabs, rest);
    }
  }

  lemma KeyLost(nums: Numerals, key: bytes, spaced: bool, text: bytes)
    requires CleanKey(key) && Starts(text)
    ensures LostInKvp(nums, PrintKey(key, spaced) + text) == Lost(nums, text)
  {
    hide Lost;
    hide CleanKey;
    hide Quoted;
    hide PrintKey;
    hide Space;
    KeyQuoted(key, spaced, text);
    SpaceTrimmed(spaced, text);
    assert ([COLON] + (Space(spaced) + text))[1..] == Space(spaced) + text;
  }

  lemma PairLost(nums: Numerals, p: Pair, spaced: bool, tabs: nat, tail: bytes, ps: seq<Pair>)
    requires CleanKey(p.key) && Printable(nums, p.val)
    ensures var text := Print(nums, p.val, spaced, tabs + 1) + tail;
            var r := Value(nums, text);
            LostInPairs(nums, [COMMA] + (Gap(spaced, tabs + 1) + (PairText(nums, p, spaced, tabs) + tail)), ps)
            == Lost(nums, text) + if !r.Good? then 0
                                  else
                                    var p' := Pair(p.key, r.value);
                                    Dropped(ps, p') + LostInPairs(nums, r.rest, Put(ps, p'))
  {
    hide Value;
    hide Gap;
    hide Kvp;
    hide Lost;
    hide LostInKvp;
    hide Dropped;
    var text := PairText(nums, p, spaced, tabs);
    var s := [COMMA] + (Gap(spaced, tabs + 1) + (text + tail));
    PrintStarts(nums, p.val, spaced, tabs + 1);
    Assoc(PrintKey(p.key, spaced), Print(nums, p.val, spaced, tabs + 1), tail);
    KeyRead(nums, p.key, spaced, Print(nums, p.val, spaced, tabs + 1) + tail);
    KeyLost(nums, p.key, spaced, Print(nums, p.val, spaced, tabs + 1) + tail);
    assert s[1..] == Gap(spaced, tabs + 1) + (text + tail);
    TrimGap(spaced, tabs + 1, text + tail);
  }

  lemma {:induction false} PairsLoseNothing(nums: Numerals, ps: seq<Pair>, spaced: bool, tabs: nat, rest: bytes, read: seq<Pair>)
    requires PairsPrintable(nums, ps) && NewKeys(read, ps)
    ensures var end := Closing(spaced, tabs, CLOSE_OBJECT, rest);
            LostInPairs(nums, PrintPairs(nums, ps, spaced, tabs, false) + end, read) == 0
    decreases ps, 0
  {
    hide Value;
    hide Print;
    hide Gap;
    hide Closing;
    hide NumbersOk;
    hide DistinctKeys;
    hide CleanKeys;
    hide Lost;
    hide LostInKvp;
    var end := Closing(spaced, tabs, CLOSE_OBJECT, rest);
    ClosingTrimmed(spaced, tabs, CLOSE_OBJECT, rest);
    if ps == [] {
      assert PrintPairs(nums, ps, spaced, tabs, false) + end == end;
    } else {
      hide LostInPairs;
      hide Trim;
      var tail := PrintPairs(nums, ps[1..], spaced, tabs, false) + end;
      PairsFollow(nums, ps, spaced, tabs, false, end);
      PairLost(nums, ps[0], spaced, tabs, tail, read);
      PairsStop(nums, ps[1..], spaced, tabs, end);
      ComesBack(nums, ps[0].val, spaced, tabs + 1, tail);
      PrintedLosesNothing(nums, ps[0].val, spaced, tabs + 1, tail);
      var p := Pair(ps[0].key, Kept(ps[0].val));
      PutNew(read, p);
      StillNewKeys(read, p, ps[1..]);
      PairsLoseNothing(nums, ps[1..], spaced, tabs, rest, read + [p]);
    }
  }

  lemma PairsBegin(nums: Numerals, s: bytes)
    requires s != [] && s[0] == OPEN_OBJECT
    ensures var t := Trim(s[1..]);
            var r := if t == [] then SyntaxError else Kvp(nums, t);
            Lost(nums, s) == if t == [] || t[0] == CLOSE_OBJECT then 0
                             else LostInKvp(nums, t) + if r.Good? then LostInPairs(nums, r.rest, [r.value]) else 0
  {
    hide Kvp;
    hide LostInKvp;
    hide LostInPairs;
  }

  lemma FirstPairLost(nums: Numerals, p: Pair, spaced: bool, tabs: nat, tail: bytes)
    requires CleanKey(p.key) && Printable(nums, p.val)
    ensures var text := Print(nums, p.val, spaced, tabs + 1) + tail;
            var r := Value(nums, text);
            Lost(nums, [OPEN_OBJECT] + (Gap(spaced, tabs + 1) + (PairText(nums, p, spaced, tabs) + tail)))
            == Lost(nums, text) + if r.Good? then LostInPairs(nums, r.rest, [Pair(p.key, r.value)]) else 0
  {
    hide Value;
    hide Gap;
    hide Kvp;
    hide Lost;
    hide LostInKvp;
    hide LostInPairs;
    var text := PairText(nums, p, spaced, tabs);
    var s := [OPEN_OBJECT] + (Gap(spaced, tabs + 1) + (text + tail));
    PrintStarts(nums, p.val, spaced, tabs + 1);
    Assoc(PrintKey(p.key, spaced), Print(nums, p.val, spaced, tabs + 1), tail);
    KeyRead(nums, p.key, spaced, Print(nums, p.val, spaced, tabs + 1) + tail);
    KeyLost(nums, p.key, spaced, Print(nums, p.val, spaced, tabs + 1) + tail);
    assert s[1..] == Gap(spaced, tabs + 1) + (text + tail);
    TrimGap(spaced, tabs + 1, text + tail);
    PairsBegin(nums, s);
  }

  lemma {:induction false} ObjectLosesNothing(nums: Numerals, ps: seq<Pair>, spaced: bool, tabs: nat, rest: bytes)
    requires PairsPrintable(nums, ps)
    ensures Lost(nums, Print(nums, Object(ps), spaced, tabs) + rest) == 0
    decreases ps, 1
  {
    hide Value;
    hide Print;
    hide Gap;
    hide Closing;
    hide NumbersOk;
    hide DistinctKeys;
    hide CleanKeys;
    hide Lost;
    var end := Closing(spaced, tabs, CLOSE_OBJECT, rest);
    ObjectText(nums, ps, spaced, tabs, rest);
    ClosingTrimmed(spaced, tabs, CLOSE_OBJECT, rest);
    if ps == [] {
      assert PrintPairs(nums, ps, spaced, tabs, true) + end == end;
      assert ([OPEN_OBJECT] + end)[1..] == end;
      PairsBegin(nums, [OPEN_OBJECT] + end);
    } else {
      hide LostInPairs;
      hide Trim;
      var tail := PrintPairs(nums, ps[1..], spaced, tabs, false) + end;
      var pair := PairText(nums, ps[0], spaced, tabs) + tail;
      PairsFollow(nums, ps, spaced, tabs, true, end);
      assert [] + (Gap(spaced, tabs + 1) + pair) == Gap(spaced, tabs + 1) + pair;
      FirstPairLost(nums, ps[0], spaced, tabs, tail);
      PairsStop(nums, ps[1..], spaced, tabs, end);
      ComesBack(nums, ps[0].val, spaced, tabs + 1, tail);
      PrintedLosesNothing(nums, ps[0].val, spaced, tabs + 1, tail);
      var p := Pair(ps[0].key, Kept(ps[0].val));
      NoneRead(ps[1..]);
      StillNewKeys([], p, ps[1..]);
      assert [] + [p] == [p];
      PairsLoseNothing(nums, ps[1..], spaced, tabs, rest, [p]);
    }
  }

  /** Nothing is lost of the text of a printable value, whether it can be read or not. */
  lemma {:induction false} PrintedLosesNothing(nums: Numerals, j: Json, spaced: bool, tabs: nat, rest: bytes)
    requires Printable(nums, j) && Stops(rest)
    ensures Lost(nums, Print(nums, j, spaced, tabs) + rest) == 0
    decreases j, 1
  {
    match j
    case List(js) => ListLosesNothing(nums, js, spaced, tabs, rest);
    case Object(ps) => ObjectLosesNothing(nums, ps, spaced, tabs, rest);
    case Number(n) =>
      var t := nums.show(n);
      NumberChars(t);
      NoNul(t);
    case _ =>
  }

  /** An object written with a key twice: the value under the first and the second key are lost. */
  lemma RepeatedKeyIsLost(nums: Numerals, p: Pair, q: Pair, spaced: bool, tabs: nat, rest: bytes)
    requires CleanKey(p.key) && q.key == p.key && Printable(nums, p.val) && Printable(nums, q.val)
    requires !QuoteInside(p.val) && !QuoteInside(q.val)
    ensures Lost(nums, Print(nums, Object([p, q]), spaced, tabs) + rest) == 1 + Owned(Kept(p.val))
  {
    hide Value;
    hide Print;
    hide Gap;
    hide Closing;
    hide NumbersOk;
    hide DistinctKeys;
    hide CleanKeys;
    hide QuoteInside;
    hide Kept;
    hide Lost;
    hide Owned;
    hide LostInKvp;
    var end := Closing(spaced, tabs, CLOSE_OBJECT, rest);
    var ps, last := [p, q], [q];
    var second := PrintPairs(nums, last, spaced, tabs, false) + end;
    assert ps[1..] == last && last[1..] == [];
    ClosingTrimmed(spaced, tabs, CLOSE_OBJECT, rest);
    assert PrintPairs(nums, [], spaced, tabs, false) + end == end;
    ObjectText(nums, ps, spaced, tabs, rest);
    PairsFollow(nums, ps, spaced, tabs, true, end);
    var pair := PairText(nums, p, spaced, tabs) + second;
    assert [] + (Gap(spaced, tabs + 1) + pair) == Gap(spaced, tabs + 1) + pair;
    FirstPairLost(nums, p, spaced, tabs, second);
    PairsStop(nums, last, spaced, tabs, end);
    ComesBack(nums, p.val, spaced, tabs + 1, second);
    PrintedLosesNothing(nums, p.val, spaced, tabs + 1, second);
    PairsFollow(nums, last, spaced, tabs, false, end);
    PairLost(nums, q, spaced, tabs, end, [Pair(p.key, Kept(p.val))]);
    ComesBack(nums, q.val, spaced, tabs + 1, end);
    PrintedLosesNothing(nums, q.val, spaced, tabs + 1, end);
  }
}
