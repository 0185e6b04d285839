/**
 * The lexical rules of JSON, said on their own: white space, numbers and the escapes in strings (sections 2, 6 and 7 of
 * RFC 8259). What the parser of chjson/src/parser.c makes of them is proved here.
 */
module JsonLexis {
  import opened Bytes
  import opened Json

  // ---------------------------------------------------------------- white space

  predicate White(c: byte) {
    c == ' ' as int || c == '\n' as int || c == '\r' as int || c == '\t' as int
  }

  /** White space in front is skipped, all of it and nothing else. */
  lemma {:induction false} TrimSkips(ws: bytes, s: bytes)
    requires forall c <- ws :: White(c)
    ensures Trim(ws + s) == Trim(s)
    ensures (s == [] || !White(s[0])) ==> Trim(ws + s) == s
  {
    var t := ws + s;
    if ws == [] {
      assert t == s;
    } else {
      assert t[0] == ws[0] && ws[0] in ws && t[1..] == ws[1..] + s;
      assert forall c <- ws[1..] :: c in ws;
      TrimSkips(ws[1..], s);
    }
  }

  /**
   * White space plays no part around a document, behind an opening bracket, or before what follows an item or a pair.
   */
  lemma WhiteSpaceIgnored(nums: Numerals, ws: bytes, s: bytes, js: seq<Json>, ps: seq<Pair>)
    requires forall c <- ws :: White(c)
    ensures Document(nums, ws + s) == Document(nums, s)
    ensures Value(nums, [OPEN_LIST] + ws + s) == Value(nums, [OPEN_LIST] + s)
    ensures Value(nums, [OPEN_OBJECT] + ws + s) == Value(nums, [OPEN_OBJECT] + s)
    ensures Items(nums, ws + s, js) == Items(nums, s, js)
    ensures Pairs(nums, ws + s, ps) == Pairs(nums, s, ps)
  {
    hide Kvp;
    hide Trim;
    hide Num;
    hide Const;
    hide Quoted;
    TrimSkips(ws, s);
    assert ([OPEN_LIST] + ws + s)[1..] == ws + s && ([OPEN_LIST] + s)[1..] == s;
    assert ([OPEN_OBJECT] + ws + s)[1..] == ws + s && ([OPEN_OBJECT] + s)[1..] == s;
  }

  lemma TrimNone(c: byte, s: bytes)
    requires !White(c)
    ensures Trim([c] + s) == [c] + s
  {
  }

  lemma AfterComma(nums: Numerals, s: bytes, js: seq<Json>, ps: seq<Pair>)
    ensures var r := Value(nums, Trim(s));
            Items(nums, [COMMA] + s, js) == if r.Good? then Items(nums, r.rest, js + [r.value]) else SyntaxError
    ensures var r := Kvp(nums, Trim(s));
            Pairs(nums, [COMMA] + s, ps) == if r.Good? then Pairs(nums, r.rest, Put(ps, r.value)) else SyntaxError
  {
    hide Value;
    hide Kvp;
    hide Trim;
    TrimNone(COMMA, s);
    assert ([COMMA] + s)[1..] == s;
  }

  /** Nor behind a comma. */
  lemma WhiteSpaceAfterComma(nums: Numerals, ws: bytes, s: bytes, js: seq<Json>, ps: seq<Pair>)
    requires forall c <- ws :: White(c)
    ensures Items(nums, [COMMA] + (ws + s), js) == Items(nums, [COMMA] + s, js)
    ensures Pairs(nums, [COMMA] + (ws + s), ps) == Pairs(nums, [COMMA] + s, ps)
  {
    hide Items;
    hide Pairs;
    hide Value;
    hide Kvp;
    hide Trim;
    TrimSkips(ws, s);
    AfterComma(nums, s, js, ps);
    AfterComma(nums, ws + s, js, ps);
  }

  /** Nor in front of a pair's colon, or behind it. */
  lemma WhiteSpaceInPair(nums: Numerals, ws: bytes, ws': bytes, s: bytes, t: bytes, t': bytes)
    requires (forall c <- ws :: White(c)) && forall c <- ws' :: White(c)
    requires Quoted(t).Good? && Quoted(t') == Good(Quoted(t).value, [COLON] + s)
    requires Quoted(t).rest == ws + ([COLON] + (ws' + s))
    ensures Kvp(nums, t) == Kvp(nums, t')
  {
    hide Value;
    hide Quoted;
    hide Trim;
    TrimSkips(ws, [COLON] + (ws' + s));
    TrimSkips(ws', s);
    TrimNone(COLON, s);
    assert ([COLON] + (ws' + s))[1..] == ws' + s && ([COLON] + s)[1..] == s;
  }

  // ---------------------------------------------------------------- numbers

  predicate IsDigit(c: byte) {
    '0' as int <= c <= '9' as int
  }

  predicate Digits(s: bytes) {
    s != [] && forall c <- s :: IsDigit(c)
  }

  /** The letter, the sign, and the digits. */
  datatype Exponent = Exponent(capital: bool, sign: Option<bool>, digits: bytes) {
    function Text(): bytes {
      [if capital then 'E' as int else 'e' as int]
      + (match sign case None => [] case Some(minus) => [if minus then '-' as int else '+' as int])
      + digits
    }
  }

  /** The parts of a number: `whole` has no leading zero unless it is one. */
  datatype Numeral = Numeral(minus: bool, whole: bytes, frac: Option<bytes>, exp: Option<Exponent>) {
    predicate Valid() {
      && Digits(whole) && (whole[0] == '0' as int ==> |whole| == 1)
      && (frac.Some? ==> Digits(frac.value))
      && (exp.Some? ==> Digits(exp.value.digits))
    }

    function Text(): bytes {
      (if minus then ['-' as int] else [])
      + whole
      + (match frac case None => [] case Some(f) => ['.' as int] + f)
      + (match exp case None => [] case Some(e) => e.Text())
    }
  }

  /** A JSON number. */
  ghost predicate IsNumber(t: bytes) {
    exists n: Numeral :: n.Valid() && n.Text() == t
  }

  /** What a number may go on with. */
  predicate GoesOn(c: byte) {
    IsDigit(c) || c == '+' as int || c == '-' as int || c == '.' as int || c == 'e' as int || c == 'E' as int
  }

  /** What follows does not go on with a number. */
  predicate Stops(rest: bytes) {
    rest != [] ==> !GoesOn(rest[0])
  }

  lemma NumberChars(t: bytes)
    requires IsNumber(t)
    ensures t != [] && (forall c <- t :: GoesOn(c)) && (IsDigit(t[0]) || t[0] == '-' as int)
  {
    var n: Numeral :| n.Valid() && n.Text() == t;
    var frac := match n.frac case None => [] case Some(f) => ['.' as int] + f;
    var exp := match n.exp case None => [] case Some(e) => e.Text();
    assert forall c <- exp :: GoesOn(c);
    assert forall c <- frac :: GoesOn(c);
    assert t == (if n.minus then ['-' as int] else []) + n.whole + frac + exp;
    assert n.whole[0] in n.whole;
  }

  lemma {:induction false} WidthOfNumber(t: bytes, rest: bytes, max: nat)
    requires (forall c <- t :: GoesOn(c)) && |t| <= max && Stops(rest)
    ensures NumberWidth(t + rest, max) == |t|
  {
    var s := t + rest;
    if t == [] {
      assert s == rest;
    } else {
      assert s[0] in t && forall c <- t[1..] :: c in t;
      assert s[1..] == t[1..] + rest;
      WidthOfNumber(t[1..], rest, max - 1);
    }
  }

  /** Every number of at most 26 characters is handed whole to `strtod`, and what that makes of it is the value. */
  lemma NumberIsRead(nums: Numerals, t: bytes, d: Double, rest: bytes)
    requires IsNumber(t) && |t| <= 26 && nums.read(t) == Some(d) && Stops(rest)
    ensures Value(nums, t + rest) == Good(Number(d), rest)
  {
    hide IsNumber;
    hide Quoted;
    hide Const;
    hide Kvp;
    hide Items;
    hide Pairs;
    hide NumberWidth;
    NumberChars(t);
    WidthOfNumber(t, rest, 26);
    assert (t + rest)[..|t|] == t && (t + rest)[|t|..] == rest;
  }

  // ---------------------------------------------------------------- escapes

  /**
   * The letters of the escapes that the parser knows, with what each stands for; the one for a quote is not among them.
   */
  const ESCAPES: map<char, byte> := map[
    '\\' := 0x5C, '/' := 0x2F, 'b' := 8, 'f' := 0xC, 'n' := 0xA, 'r' := 0xD, 't' := 9]

  /** One letter behind a backslash is an escape exactly if it is in the table. */
  lemma LetterEscapes(c: char, rest: bytes)
    requires c as int < 256 && c != 'u'
    ensures Escape([c as int] + rest) == if c in ESCAPES then Good([ESCAPES[c]], rest) else SyntaxError
  {
    assert ([c as int] + rest)[1..] == rest;
  }

  /** The value of a hex digit. */
  function HexValue(c: char): Option<nat> {
    if '0' <= c <= '9' then Some(c as int - '0' as int)
    else if 'a' <= c <= 'f' then Some(10 + (c as int - 'a' as int))
    else if 'A' <= c <= 'F' then Some(10 + (c as int - 'A' as int))
    else None
  }

  /** The code point of a UTF-8 sequence of one to three bytes (section 3 of RFC 3629). */
  function CodePoint(s: seq<int>): Option<int> {
    if |s| == 1 && 0 <= s[0] < 0x80 then Some(s[0])
    else if |s| == 2 && 0xC0 <= s[0] < 0xE0 && 0x80 <= s[1] < 0xC0 then Some((s[0] - 0xC0) * 0x40 + (s[1] - 0x80))
    else if |s| == 3 && 0xE0 <= s[0] < 0xF0 && 0x80 <= s[1] < 0xC0 && 0x80 <= s[2] < 0xC0 then
      Some((s[0] - 0xE0) * 0x1000 + (s[1] - 0x80) * 0x40 + (s[2] - 0x80))
    else None
  }

  lemma Utf8Point(d3: nat, d2: nat, d1: nat, d0: nat)
    requires d3 < 16 && d2 < 16 && d1 < 16 && d0 < 16
    ensures var point := 0x1000 * d3 + 0x100 * d2 + 0x10 * d1 + d0;
            && CodePoint(Utf8(d3, d2, d1, d0)) == Some(point)
            && |Utf8(d3, d2, d1, d0)| == if point < 0x80 then 1 else if point < 0x800 then 2 else 3
  {
    assert d1 == 4 * (d1 / 4) + d1 % 4 && 0 <= d1 / 4 < 4;
  }

  lemma HexSame(c: char)
    requires HexValue(c).Some?
    ensures c as int < 256 && HexDigit(c as int) == HexValue(c) && HexValue(c).value < 16
  {
  }

  /** Four hex digits behind `u` are read as the shortest UTF-8 form of their code point. */
  lemma UnicodeEscapes(a: char, b: char, c: char, d: char, rest: bytes)
    requires HexValue(a).Some? && HexValue(b).Some? && HexValue(c).Some? && HexValue(d).Some?
    ensures var point := 0x1000 * HexValue(a).value + 0x100 * HexValue(b).value + 0x10 * HexValue(c).value + HexValue(d).value;
            var r := Escape(['u' as int, a as int, b as int, c as int, d as int] + rest);
            && r.Good? && r.rest == rest && CodePoint(r.value) == Some(point)
            && |r.value| == if point < 0x80 then 1 else if point < 0x800 then 2 else 3
  {
    HexSame(a);
    HexSame(b);
    HexSame(c);
    HexSame(d);
    hide HexValue;
    hide HexDigit;
    hide CodePoint;
    hide Utf8;
    var s := ['u' as int, a as int, b as int, c as int, d as int] + rest;
    assert s[0] == 'u' as int && s[1] == a as int && s[2] == b as int && s[3] == c as int && s[4] == d as int;
    assert s[5..] == rest;
    Utf8Point(HexValue(a).value, HexValue(b).value, HexValue(c).value, HexValue(d).value);
  }

  /** Anything else behind `u` is a syntax error. */
  lemma BadUnicode(s: bytes)
    requires |s| < 4 || exists k | 0 <= k < 4 :: HexValue(s[k] as char).None?
    ensures Escape(['u' as int] + s) == SyntaxError
  {
    var t := ['u' as int] + s;
    if |s| >= 4 {
      var k: nat :| k < 4 && HexValue(s[k] as char).None?;
      assert t[k + 1] == s[k];
      assert HexDigit(t[k + 1]).None?;
    }
  }

  // ---------------------------------------------------------------- names

  /** The three names are read as what they name (section 3 of RFC 8259). */
  lemma Names(nums: Numerals, rest: bytes)
    ensures Value(nums, ['n' as int, 'u' as int, 'l' as int, 'l' as int] + rest) == Good(Null, rest)
    ensures Value(nums, ['t' as int, 'r' as int, 'u' as int, 'e' as int] + rest) == Good(Boolean(true), rest)
    ensures Value(nums, ['f' as int, 'a' as int, 'l' as int, 's' as int, 'e' as int] + rest) == Good(Boolean(false), rest)
  {
    hide Expect;
    hide Kvp;
    hide Items;
    hide Pairs;
    hide Quoted;
    Expected(NULL, rest);
    Expected(TRUE, rest);
    Expected(FALSE, rest);
  }

  lemma {:induction false} Expected(text: bytes, rest: bytes)
    ensures Expect(text + rest, text) == Good((), rest)
  {
    var t := text + rest;
    if text == [] {
      assert t == rest;
    } else {
      assert t[1..] == text[1..] + rest;
      Expected(text[1..], rest);
    }
  }
}
