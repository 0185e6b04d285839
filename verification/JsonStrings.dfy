/** What the JSON parser reads back from a printed string or key. */
module JsonStrings {
  import opened Bytes
  import opened Json

  /** A control character other than backspace, tab, line feed, form feed and carriage return. */
  predicate Dropped(c: byte) {
    c < 0x20 && c != 8 && c != 9 && c != 0xA && c != 0xC && c != 0xD
  }

  /** `s` up to its first NUL, without the dropped characters. */
  function KeptString(s: bytes): (r: bytes)
    ensures |r| <= |s|
  {
    if s == [] || s[0] == 0 then []
    else if Dropped(s[0]) then KeptString(s[1..])
    else [s[0]] + KeptString(s[1..])
  }

  /** A double quote before the first NUL. */
  predicate QuoteIn(s: bytes) {
    s != [] && s[0] != 0 && (s[0] == QUOTE || QuoteIn(s[1..]))
  }

  predicate CleanString(s: bytes) {
    forall c <- s :: c != QUOTE && !Dropped(c)
  }

  predicate CleanKey(k: bytes) {
    forall c <- k :: c >= 0x20 && c != QUOTE && c != BACKSLASH
  }

  /** One printed character, read. */
  lemma CharComesBack(c: byte, more: bytes, text: bytes)
    requires c != 0
    ensures Chars(EscapeChar(c) + more, text)
         == if c == QUOTE then SyntaxError else Chars(more, if Dropped(c) then text else text + [c])
  {
    var t := EscapeChar(c) + more;
    if EscapeChar(c) == [] {
      assert t == more;
    } else if |EscapeChar(c)| == 1 {
      assert t[1..] == more;
    } else {
      assert t[0] == BACKSLASH && t[1..][0] == EscapeChar(c)[1] && t[1..][1..] == more;
    }
  }

  /** A string with a quote is a syntax error; any other comes back without what the printer drops. */
  lemma {:induction false} StringComesBack(s: bytes, rest: bytes, text: bytes)
    ensures Chars(EscapeString(s) + [QUOTE] + rest, text)
         == if QuoteIn(s) then SyntaxError else Good(text + KeptString(s), rest)
  {
    var t := EscapeString(s) + [QUOTE] + rest;
    if s == [] || s[0] == 0 {
      assert t == [QUOTE] + rest && t[1..] == rest && text + [] == text;
    } else {
      var more := EscapeString(s[1..]) + [QUOTE] + rest;
      assert t == EscapeChar(s[0]) + more;
      CharComesBack(s[0], more, text);
      hide Chars;
      if Dropped(s[0]) {
        StringComesBack(s[1..], rest, text);
      } else {
        StringComesBack(s[1..], rest, text + [s[0]]);
        Assoc(text, [s[0]], KeptString(s[1..]));
      }
    }
  }

  lemma {:induction false} CleanIsKept(s: bytes)
    ensures CleanString(s) <==> !QuoteIn(s) && KeptString(s) == s
  {
    if s != [] {
      CleanIsKept(s[1..]);
      assert s == [s[0]] + s[1..];
      if CleanString(s) {
        assert forall c <- s[1..] :: c in s;
        assert CleanString(s[1..]) && s[0] in s;
      } else if s[0] != 0 && !QuoteIn(s) && KeptString(s) == s {
        assert KeptString(s) == [s[0]] + KeptString(s[1..]) && KeptString(s)[1..] == s[1..];
        assert forall c <- s :: c == s[0] || c in s[1..];
      }
    }
  }

  /** A JSON string is read back as it was exactly when it has no NUL, no quote and no unknown control character. */
  lemma StringRoundTrip(s: bytes, rest: bytes)
    ensures Quoted([QUOTE] + EscapeString(s) + [QUOTE] + rest) == Good(s, rest) <==> CleanString(s)
  {
    assert ([QUOTE] + EscapeString(s) + [QUOTE] + rest)[1..] == EscapeString(s) + [QUOTE] + rest;
    StringComesBack(s, rest, []);
    CleanIsKept(s);
    assert [] + KeptString(s) == KeptString(s);
  }

  /** No string is longer than its text, and it is as long as that only when it is that text, with nothing to escape. */
  lemma {:induction false} ReadingShrinks(s: bytes, text: bytes)
    requires Chars(s, text).Good?
    ensures var Good(v, rest) := Chars(s, text);
            && |v| + 1 + |rest| <= |text| + |s|
            && (|v| + 1 + |rest| == |text| + |s| ==>
                  exists k :: CleanKey(k) && v == text + k && s == k + [QUOTE] + rest)
    decreases |s|
  {
    var Good(v, rest) := Chars(s, text);
    if s[0] == QUOTE {
      assert CleanKey([]) && v == text + [] && s == [] + [QUOTE] + rest;
    } else if s[0] == BACKSLASH {
      ReadingShrinks(Escape(s[1..]).rest, text + Escape(s[1..]).value);
    } else {
      ReadingShrinks(s[1..], text + [s[0]]);
      if |v| + 1 + |rest| == |text| + |s| {
        var k :| CleanKey(k) && v == text + [s[0]] + k && s[1..] == k + [QUOTE] + rest;
        Longer(s, text, k, v, rest);
      }
    }
  }

  lemma Longer(s: bytes, text: bytes, k: bytes, v: bytes, rest: bytes)
    requires s != [] && s[0] >= 0x20 && s[0] != QUOTE && s[0] != BACKSLASH
    requires CleanKey(k) && v == text + [s[0]] + k && s[1..] == k + [QUOTE] + rest
    ensures exists k' :: CleanKey(k') && v == text + k' && s == k' + [QUOTE] + rest
  {
    var k' := [s[0]] + k;
    assert CleanKey(k') && v == text + k';
    assert s == [s[0]] + s[1..] == k' + [QUOTE] + rest;
  }

  lemma {:induction false} CleanComesBack(k: bytes, rest: bytes, text: bytes)
    requires CleanKey(k)
    ensures CStr(k) == k && Chars(k + [QUOTE] + rest, text) == Good(text + k, rest)
  {
    var s := k + [QUOTE] + rest;
    if k == [] {
      assert s[1..] == rest && text + k == text;
    } else {
      assert s[0] == k[0] && k[0] in k && s[1..] == k[1..] + [QUOTE] + rest;
      assert forall c <- k[1..] :: c in k;
      CleanComesBack(k[1..], rest, text + [k[0]]);
      assert k == [k[0]] + k[1..];
      Assoc(text, [k[0]], k[1..]);
    }
  }

  lemma {:induction false} CStrShorter(s: bytes)
    ensures |CStr(s)| <= |s|
  {
    if s != [] {
      CStrShorter(s[1..]);
    }
  }

  /** A key is read back as it was exactly when it has no quote, no backslash and no control character. */
  lemma KeyRoundTrip(k: bytes, rest: bytes)
    ensures Quoted([QUOTE] + CStr(k) + [QUOTE] + rest) == Good(k, rest) <==> CleanKey(k)
  {
    var s := CStr(k) + [QUOTE] + rest;
    assert ([QUOTE] + CStr(k) + [QUOTE] + rest)[1..] == s;
    if CleanKey(k) {
      CleanComesBack(k, rest, []);
      assert [] + k == k;
    }
    if Chars(s, []) == Good(k, rest) {
      ReadingShrinks(s, []);
      CStrShorter(k);
      var k' :| CleanKey(k') && k == [] + k' && s == k' + [QUOTE] + rest;
      assert k == k';
    }
  }
}
