/** The printer of chjson/src/json_helpers.c over an output stream that appends to a string (chutil/src/stream.c). */
module JsonPrinter {
  import opened Bytes
  import opened Json

  class OutStream {
    var builder: bytes

    constructor ()
      ensures builder == []
    {
      builder := [];
    }

    method PutC(c: byte)
      modifies this
      ensures builder == old(builder) + [c]
    {
      builder := builder + [c];
    }

    /** Writes a C string, up to its NUL. */
    method PutS(s: bytes)
      modifies this
      ensures builder == old(builder) + CStr(s)
    {
      var k := 0;
      while k < |s| && s[k] != 0
        invariant k <= |s| && builder + CStr(s[k..]) == old(builder) + CStr(s)
      {
        Assoc(builder, [s[k]], CStr(s[k + 1..]));
        assert s[k..][1..] == s[k + 1..];
        PutC(s[k]);
        k := k + 1;
      }
      assert builder + [] == builder;
    }
  }

  /** Each tab is two spaces. */
  method TabOut(os: OutStream, tabs: nat)
    modifies os
    ensures os.builder == old(os.builder) + Tabs(tabs)
  {
    for k := 0 to tabs
      invariant os.builder + Tabs(tabs - k) == old(os.builder) + Tabs(tabs)
    {
      Assoc(os.builder, [SPACE, SPACE], Tabs(tabs - k - 1));
      os.PutC(SPACE);
      os.PutC(SPACE);
    }
    assert os.builder + [] == os.builder;
  }

  method GapOut(os: OutStream, spaced: bool, tabs: nat)
    modifies os
    ensures os.builder == old(os.builder) + Gap(spaced, tabs)
  {
    if spaced {
      Assoc(os.builder, [NEWLINE], Tabs(tabs));
      os.PutC(NEWLINE);
      TabOut(os, tabs);
    }
  }

  method EscapeChars(os: OutStream, c: byte)
    modifies os
    ensures os.builder == old(os.builder) + EscapeChar(c)
  {
    if c >= 0x20 {
      if c == QUOTE || c == BACKSLASH {
        os.PutC(BACKSLASH);
      }
      os.PutC(c);
    } else if ControlLetter(c).Some? {
      os.PutC(BACKSLASH);
      os.PutC(ControlLetter(c).value);
    }
  }

  method EscapeStringToStream(os: OutStream, s: bytes)
    modifies os
    ensures os.builder == old(os.builder) + EscapeString(s)
  {
    var k := 0;
    while k < |s| && s[k] != 0
      invariant k <= |s| && os.builder + EscapeString(s[k..]) == old(os.builder) + EscapeString(s)
    {
      Assoc(os.builder, EscapeChar(s[k]), EscapeString(s[k + 1..]));
      assert s[k..][1..] == s[k + 1..];
      EscapeChars(os, s[k]);
      k := k + 1;
    }
    assert os.builder + [] == os.builder;
  }

  method ToStream(nums: Numerals, j: Json, os: OutStream, spaced: bool, tabs: nat)
    modifies os
    ensures os.builder == old(os.builder) + Print(nums, j, spaced, tabs)
    decreases j, 1
  {
    hide PrintItems;
    hide PrintPairs;
    hide CStr;
    hide EscapeString;
    match j
    case Object(ps) => ObjectToStream(nums, ps, os, spaced, tabs);
    case List(js) => ListToStream(nums, js, os, spaced, tabs);
    case Str(s) =>
      os.PutC(QUOTE);
      EscapeStringToStream(os, s);
      os.PutC(QUOTE);
    case Number(n) => os.PutS(nums.show(n));
    case Boolean(b) =>
      NoNul(if b then TRUE else FALSE);
      os.PutS(if b then TRUE else FALSE);
    case Null =>
      NoNul(NULL);
      os.PutS(NULL);
  }

  /** A separator, and one item behind it. */
  method ItemToStream(nums: Numerals, j: Json, os: OutStream, spaced: bool, tabs: nat, first: bool)
    modifies os
    ensures os.builder == old(os.builder) + Comma(first) + Gap(spaced, tabs + 1) + Print(nums, j, spaced, tabs + 1)
    decreases j, 2
  {
    hide Print;
    if !first {
      os.PutC(COMMA);
    }
    assert os.builder == old(os.builder) + Comma(first);
    hide Comma;
    GapOut(os, spaced, tabs + 1);
    ToStream(nums, j, os, spaced, tabs + 1);
  }

  method ListToStream(nums: Numerals, js: seq<Json>, os: OutStream, spaced: bool, tabs: nat)
    modifies os
    ensures os.builder == old(os.builder) + Print(nums, List(js), spaced, tabs)
    decreases js, 1
  {
    os.PutC(OPEN_LIST);
    ItemsToStream(nums, js, os, spaced, tabs);
    GapOut(os, spaced, tabs);
    Regroup(old(os.builder), [OPEN_LIST], PrintItems(nums, js, spaced, tabs, true), Gap(spaced, tabs), [CLOSE_LIST]);
    os.PutC(CLOSE_LIST);
  }

  method ItemsToStream(nums: Numerals, js: seq<Json>, os: OutStream, spaced: bool, tabs: nat)
    modifies os
    ensures os.builder == old(os.builder) + PrintItems(nums, js, spaced, tabs, true)
    decreases js, 0
  {
    hide Print;
    hide Gap;
    hide Comma;
    ghost var end := old(os.builder) + PrintItems(nums, js, spaced, tabs, true);
    var first := true;
    for k := 0 to |js|
      invariant os.builder + PrintItems(nums, js[k..], spaced, tabs, first) == end
    {
      assert js[k..][1..] == js[k + 1..];
      Regroup(os.builder, Comma(first), Gap(spaced, tabs + 1), Print(nums, js[k], spaced, tabs + 1),
              PrintItems(nums, js[k + 1..], spaced, tabs, false));
      ItemToStream(nums, js[k], os, spaced, tabs, first);
      first := false;
    }
    assert js[|js|..] == [] && os.builder + [] == os.builder;
  }

  method KeyOut(os: OutStream, key: bytes, spaced: bool)
    modifies os
    ensures os.builder == old(os.builder) + PrintKey(key, spaced)
  {
    os.PutC(QUOTE);
    os.PutS(key);
    os.PutC(QUOTE);
    os.PutC(COLON);
    if spaced {
      os.PutC(SPACE);
    }
  }

  /** A separator, and one pair behind it. */
  method PairToStream(nums: Numerals, p: Pair, os: OutStream, spaced: bool, tabs: nat, first: bool)
    modifies os
    ensures os.builder == old(os.builder) + Comma(first) + Gap(spaced, tabs + 1)
                          + (PrintKey(p.key, spaced) + Print(nums, p.val, spaced, tabs + 1))
    decreases p, 2
  {
    hide Print;
    hide PrintKey;
    if !first {
      os.PutC(COMMA);
    }
    assert os.builder == old(os.builder) + Comma(first);
    hide Comma;
    GapOut(os, spaced, tabs + 1);
    Assoc(os.builder, PrintKey(p.key, spaced), Print(nums, p.val, spaced, tabs + 1));
    KeyOut(os, p.key, spaced);
    ToStream(nums, p.val, os, spaced, tabs + 1);
  }

  method ObjectToStream(nums: Numerals, ps: seq<Pair>, os: OutStream, spaced: bool, tabs: nat)
    modifies os
    ensures os.builder == old(os.builder) + Print(nums, Object(ps), spaced, tabs)
    decreases ps, 1
  {
    os.PutC(OPEN_OBJECT);
    PairsToStream(nums, ps, os, spaced, tabs);
    GapOut(os, spaced, tabs);
    Regroup(old(os.builder), [OPEN_OBJECT], PrintPairs(nums, ps, spaced, tabs, true), Gap(spaced, tabs), [CLOSE_OBJECT]);
    os.PutC(CLOSE_OBJECT);
  }

  method PairsToStream(nums: Numerals, ps: seq<Pair>, os: OutStream, spaced: bool, tabs: nat)
    modifies os
    ensures os.builder == old(os.builder) + PrintPairs(nums, ps, spaced, tabs, true)
    decreases ps, 0
  {
    hide Print;
    hide PrintKey;
    hide Gap;
    hide Comma;
    ghost var end := old(os.builder) + PrintPairs(nums, ps, spaced, tabs, true);
    var first := true;
    for k := 0 to |ps|
      invariant os.builder + PrintPairs(nums, ps[k..], spaced, tabs, first) == end
    {
      assert ps[k..][1..] == ps[k + 1..];
      ghost var key, val := PrintKey(ps[k].key, spaced), Print(nums, ps[k].val, spaced, tabs + 1);
      Assoc(Comma(first) + Gap(spaced, tabs + 1), key, val);
      Regroup(os.builder, Comma(first), Gap(spaced, tabs + 1), key + val, PrintPairs(nums, ps[k + 1..], spaced, tabs, false));
      PairToStream(nums, ps[k], os, spaced, tabs, first);
      first := false;
    }
    assert ps[|ps|..] == [] && os.builder + [] == os.builder;
  }
}
