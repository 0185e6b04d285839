/**
 * JSON values and their text (chjson/src/json_helpers.c, chjson/src/parser.c): what the printer writes and what the
 * recursive-descent parser reads, as functions. `char` is signed in the original: a byte from 128 on is a negative
 * character.
 */
module Json {
  import opened Bytes

  /** The bit pattern of a `double`. */
  type Double = bits: int | 0 <= bits < 0x1_0000_0000_0000_0000

  /** An object's pairs stand in the order in which its hash map yields them. */
  datatype Json = Null | Boolean(b: bool) | Number(n: Double) | Str(s: bytes) | List(items: seq<Json>) | Object(pairs: seq<Pair>)

  datatype Pair = Pair(key: bytes, val: Json)

  /** `snprintf` with "%.15g" and `strtod`; `read` gives nothing when `strtod` stops early. */
  datatype Numerals = Numerals(show: Double -> bytes, read: bytes -> Option<Double>)

  const TAB: byte := 9
  const NEWLINE: byte := 10
  const RETURN: byte := 13
  const SPACE: byte := 0x20
  const QUOTE: byte := 34
  const COMMA: byte := 44
  const COLON: byte := 58
  const BACKSLASH: byte := 92
  const OPEN_LIST: byte := 91
  const CLOSE_LIST: byte := 93
  const OPEN_OBJECT: byte := 123
  const CLOSE_OBJECT: byte := 125
  const FALSE: bytes := [102, 97, 108, 115, 101]
  const TRUE: bytes := [116, 114, 117, 101]
  const NULL: bytes := [110, 117, 108, 108]
  const MAX_NUMBER_WIDTH: nat := 26

  // ---------------------------------------------------------------- printing

  /** A C string ends at its first NUL. */
  function CStr(s: bytes): bytes {
    if s == [] || s[0] == 0 then [] else [s[0]] + CStr(s[1..])
  }

  lemma {:induction false} NoNul(s: bytes)
    requires 0 !in s
    ensures CStr(s) == s
  {
    if s != [] {
      NoNul(s[1..]);
      assert s == [s[0]] + s[1..];
    }
  }

  /** The letter after the backslash for a control character that has one. */
  function ControlLetter(c: byte): Option<byte> {
    if c == 8 then Some(98)
    else if c == 12 then Some(102)
    else if c == NEWLINE then Some(110)
    else if c == RETURN then Some(114)
    else if c == TAB then Some(116)
    else None
  }

  /** Other control characters are dropped. */
  function EscapeChar(c: byte): bytes {
    if c >= 0x20 then
      if c == QUOTE || c == BACKSLASH then [BACKSLASH, c] else [c]
    else if ControlLetter(c).Some? then [BACKSLASH, ControlLetter(c).value]
    else []
  }

  function EscapeString(s: bytes): bytes {
    if s == [] || s[0] == 0 then [] else EscapeChar(s[0]) + EscapeString(s[1..])
  }

  function Tabs(n: nat): bytes {
    if n == 0 then [] else [SPACE, SPACE] + Tabs(n - 1)
  }

  function Gap(spaced: bool, tabs: nat): bytes {
    if spaced then [NEWLINE] + Tabs(tabs) else []
  }

  function Comma(first: bool): bytes {
    if first then [] else [COMMA]
  }

  function Print(nums: Numerals, j: Json, spaced: bool, tabs: nat): bytes
    decreases j
  {
    match j
    case Null => NULL
    case Boolean(b) => if b then TRUE else FALSE
    case Number(n) => CStr(nums.show(n))
    case Str(s) => [QUOTE] + EscapeString(s) + [QUOTE]
    case List(js) => [OPEN_LIST] + PrintItems(nums, js, spaced, tabs, true) + Gap(spaced, tabs) + [CLOSE_LIST]
    case Object(ps) => [OPEN_OBJECT] + PrintPairs(nums, ps, spaced, tabs, true) + Gap(spaced, tabs) + [CLOSE_OBJECT]
  }

  function PrintItems(nums: Numerals, js: seq<Json>, spaced: bool, tabs: nat, first: bool): bytes
    decreases js
  {
    if js == [] then []
    else
      Comma(first) + Gap(spaced, tabs + 1) + Print(nums, js[0], spaced, tabs + 1)
      + PrintItems(nums, js[1..], spaced, tabs, false)
  }

  /** Keys are written as they are, without any escape. */
  function PrintKey(key: bytes, spaced: bool): bytes {
    [QUOTE] + CStr(key) + [QUOTE, COLON] + (if spaced then [SPACE] else [])
  }

  function PrintPairs(nums: Numerals, ps: seq<Pair>, spaced: bool, tabs: nat, first: bool): bytes
    decreases ps
  {
    if ps == [] then []
    else
      Comma(first) + Gap(spaced, tabs + 1) + PrintKey(ps[0].key, spaced) + Print(nums, ps[0].val, spaced, tabs + 1)
      + PrintPairs(nums, ps[1..], spaced, tabs, false)
  }

  // ---------------------------------------------------------------- parsing

  /** A value and the input left behind it, or a syntax error, which an early end of the input is too. */
  datatype Reading<+T> = Good(value: T, rest: bytes) | SyntaxError

  predicate IsSpace(c: byte) {
    c == SPACE || c == NEWLINE || c == RETURN || c == TAB
  }

  function Trim(s: bytes): (r: bytes)
    ensures |r| <= |s|
  {
    if s != [] && IsSpace(s[0]) then Trim(s[1..]) else s
  }

  function Expect(s: bytes, text: bytes): (r: Reading<()>)
    ensures r.Good? ==> |r.rest| == |s| - |text|
    decreases |text|
  {
    if text == [] then Good((), s)
    else if s == [] || s[0] != text[0] then SyntaxError
    else Expect(s[1..], text[1..])
  }

  function HexDigit(c: byte): Option<nat> {
    if 48 <= c <= 57 then Some(c - 48)
    else if 97 <= c <= 102 then Some(c - 97 + 10)
    else if 65 <= c <= 70 then Some(c - 65 + 10)
    else None
  }

  /** The code point of four hex digits in UTF-8. */
  function Utf8(d3: nat, d2: nat, d1: nat, d0: nat): (s: bytes)
    requires d3 < 16 && d2 < 16 && d1 < 16 && d0 < 16
    ensures 1 <= |s| <= 3
  {
    var low: byte := 0x80 + d1 % 4 * 16 + d0;
    if d3 == 0 && d2 == 0 && d1 < 8 then [d1 * 16 + d0]
    else if d3 == 0 && d2 < 8 then [0xC0 + d2 * 4 + d1 / 4, low]
    else [0xE0 + d3, 0x80 + d2 * 4 + d1 / 4, low]
  }

  function ControlOf(letter: byte): Option<byte> {
    if letter == BACKSLASH || letter == 47 then Some(letter)
    else if letter == 98 then Some(8)
    else if letter == 102 then Some(12)
    else if letter == 110 then Some(NEWLINE)
    else if letter == 114 then Some(RETURN)
    else if letter == 116 then Some(TAB)
    else None
  }

  /** What may follow a backslash. There is no case for a quote. */
  function Escape(s: bytes): (r: Reading<bytes>)
    ensures r.Good? ==> |r.value| + |r.rest| <= |s|
  {
    if s == [] then SyntaxError
    else if ControlOf(s[0]).Some? then Good([ControlOf(s[0]).value], s[1..])
    else if s[0] != 117 || |s| < 5 then SyntaxError
    else
      match (HexDigit(s[1]), HexDigit(s[2]), HexDigit(s[3]), HexDigit(s[4]))
      case (Some(d3), Some(d2), Some(d1), Some(d0)) => Good(Utf8(d3, d2, d1, d0), s[5..])
      case _ => SyntaxError
  }

  /** The rest of a string of which `text` is read. */
  function Chars(s: bytes, text: bytes): (r: Reading<bytes>)
    ensures r.Good? ==> |r.rest| < |s|
    decreases |s|
  {
    if s == [] || s[0] < 0x20 then SyntaxError
    else if s[0] == QUOTE then Good(text, s[1..])
    else if s[0] == BACKSLASH then
      match Escape(s[1..])
      case SyntaxError => SyntaxError
      case Good(cs, rest) => Chars(rest, text + cs)
    else Chars(s[1..], text + [s[0]])
  }

  function Quoted(s: bytes): (r: Reading<bytes>)
    ensures r.Good? ==> |r.rest| < |s|
  {
    if s == [] || s[0] != QUOTE then SyntaxError else Chars(s[1..], [])
  }

  predicate NumberLike(c: byte) {
    c == 101 || c == 69 || 48 <= c <= 57 || c == 43 || c == 45 || c == 46
  }

  /** How many of the first `max` bytes are characters of a number, from the first on. */
  function NumberWidth(s: bytes, max: nat): (n: nat)
    ensures n <= |s| && n <= max
    decreases max
  {
    if max == 0 || s == [] || !NumberLike(s[0]) then 0 else 1 + NumberWidth(s[1..], max - 1)
  }

  function Num(nums: Numerals, s: bytes): (r: Reading<Json>)
    ensures r.Good? ==> |r.rest| < |s|
  {
    var n := NumberWidth(s, MAX_NUMBER_WIDTH);
    if n == 0 then SyntaxError
    else
      match nums.read(s[..n])
      case None => SyntaxError
      case Some(d) => Good(Number(d), s[n..])
  }

  /** `hm_put` of a pair. */
  function Put(ps: seq<Pair>, p: Pair): seq<Pair> {
    if ps == [] then [p]
    else if ps[0].key == p.key then [Pair(p.key, p.val)] + ps[1..]
    else [ps[0]] + Put(ps[1..], p)
  }

  function Value(nums: Numerals, s: bytes): (r: Reading<Json>)
    ensures r.Good? ==> |r.rest| < |s|
    decreases |s|, 1
  {
    if s == [] then SyntaxError
    else if s[0] == OPEN_OBJECT then
      var t := Trim(s[1..]);
      if t == [] then SyntaxError
      else if t[0] == CLOSE_OBJECT then Good(Object([]), t[1..])
      else
        match Kvp(nums, t)
        case SyntaxError => SyntaxError
        case Good(p, rest) => Pairs(nums, rest, [p])
    else if s[0] == OPEN_LIST then
      var t := Trim(s[1..]);
      if t == [] then SyntaxError
      else if t[0] == CLOSE_LIST then Good(List([]), t[1..])
      else
        match Value(nums, t)
        case SyntaxError => SyntaxError
        case Good(j, rest) => Items(nums, rest, [j])
    else if s[0] == QUOTE then
      match Quoted(s)
      case SyntaxError => SyntaxError
      case Good(text, rest) => Good(Str(text), rest)
    else if s[0] == FALSE[0] then Const(s, FALSE, Boolean(false))
    else if s[0] == TRUE[0] then Const(s, TRUE, Boolean(true))
    else if s[0] == NULL[0] then Const(s, NULL, Null)
    else Num(nums, s)
  }

  function Const(s: bytes, text: bytes, j: Json): (r: Reading<Json>)
    requires text != []
    ensures r.Good? ==> |r.rest| < |s|
  {
    match Expect(s, text)
    case SyntaxError => SyntaxError
    case Good(_, rest) => Good(j, rest)
  }

  /** The rest of a list of which `js` is read. */
  function Items(nums: Numerals, s: bytes, js: seq<Json>): (r: Reading<Json>)
    ensures r.Good? ==> |r.rest| < |s|
    decreases |s|, 2
  {
    var t := Trim(s);
    if t == [] then SyntaxError
    else if t[0] == CLOSE_LIST then Good(List(js), t[1..])
    else if t[0] != COMMA then SyntaxError
    else
      match Value(nums, Trim(t[1..]))
      case SyntaxError => SyntaxError
      case Good(j, rest) => Items(nums, rest, js + [j])
  }

  function Kvp(nums: Numerals, s: bytes): (r: Reading<Pair>)
    ensures r.Good? ==> |r.rest| < |s|
    decreases |s|, 2
  {
    match Quoted(s)
    case SyntaxError => SyntaxError
    case Good(key, r) =>
      var t := Trim(r);
      if t == [] || t[0] != COLON then SyntaxError
      else
        match Value(nums, Trim(t[1..]))
        case SyntaxError => SyntaxError
        case Good(j, rest) => Good(Pair(key, j), rest)
  }

  /** The rest of an object into which `ps` are put. */
  function Pairs(nums: Numerals, s: bytes, ps: seq<Pair>): (r: Reading<Json>)
    ensures r.Good? ==> |r.rest| < |s|
    decreases |s|, 2
  {
    var t := Trim(s);
    if t == [] then SyntaxError
    else if t[0] == CLOSE_OBJECT then Good(Object(ps), t[1..])
    else if t[0] != COMMA then SyntaxError
    else
      match Kvp(nums, Trim(t[1..]))
      case SyntaxError => SyntaxError
      case Good(p, rest) => Pairs(nums, rest, Put(ps, p))
  }

  /** `json_from_in_stream`. */
  function Document(nums: Numerals, s: bytes): Reading<Json> {
    Value(nums, Trim(s))
  }
}
