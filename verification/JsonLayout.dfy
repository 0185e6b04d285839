/** The spaced form of the printer as lines: what stands on which line, and how far it is indented. */
module JsonLayout {
  import opened Bytes
  import opened Json

  /** A line's text, without the two spaces in front for each level of its depth. */
  datatype Line = Line(depth: nat, text: bytes)

  function Indent(depth: nat): bytes {
    seq(2 * depth, _ => SPACE)
  }

  /** Lines, each on a new line. */
  function OnNewLines(ls: seq<Line>): bytes {
    if ls == [] then [] else [NEWLINE] + Indent(ls[0].depth) + ls[0].text + OnNewLines(ls[1..])
  }

  /** Lines, of which the first goes on where the output is. */
  function Joined(ls: seq<Line>): bytes
    requires ls != []
  {
    ls[0].text + OnNewLines(ls[1..])
  }

  /** A comma behind the last line. */
  function WithComma(ls: seq<Line>): seq<Line>
    requires ls != []
  {
    var n := |ls| - 1;
    ls[..n] + [Line(ls[n].depth, ls[n].text + [COMMA])]
  }

  /** A quoted key, a colon and a space in front of the first line. */
  function WithKey(key: bytes, ls: seq<Line>): seq<Line>
    requires ls != []
  {
    [Line(ls[0].depth, [QUOTE] + CStr(key) + [QUOTE, COLON, SPACE] + ls[0].text)] + ls[1..]
  }

  /** Brackets stand on lines of their own, and what is between them one level deeper. */
  function Lines(nums: Numerals, j: Json, depth: nat): (ls: seq<Line>)
    ensures ls != [] && ls[0].depth == depth
    decreases j
  {
    match j
    case List(js) => [Line(depth, [OPEN_LIST])] + ItemLines(nums, js, depth + 1) + [Line(depth, [CLOSE_LIST])]
    case Object(ps) => [Line(depth, [OPEN_OBJECT])] + PairLines(nums, ps, depth + 1) + [Line(depth, [CLOSE_OBJECT])]
    case _ => [Line(depth, Print(nums, j, false, 0))]
  }

  /** Items begin on new lines, with commas behind all but the last. */
  function ItemLines(nums: Numerals, js: seq<Json>, depth: nat): seq<Line>
    decreases js
  {
    if js == [] then []
    else if |js| == 1 then Lines(nums, js[0], depth)
    else WithComma(Lines(nums, js[0], depth)) + ItemLines(nums, js[1..], depth)
  }

  function PairLines(nums: Numerals, ps: seq<Pair>, depth: nat): seq<Line>
    decreases ps
  {
    if ps == [] then []
    else
      var ls := WithKey(ps[0].key, Lines(nums, ps[0].val, depth));
      if |ps| == 1 then ls else WithComma(ls) + PairLines(nums, ps[1..], depth)
  }

  lemma {:induction false} TabsIndent(n: nat)
    ensures Tabs(n) == Indent(n)
  {
    if n > 0 {
      TabsIndent(n - 1);
      assert Indent(n) == [SPACE, SPACE] + Indent(n - 1);
    }
  }

  lemma {:induction false} NewLinesAppend(a: seq<Line>, b: seq<Line>)
    ensures OnNewLines(a + b) == OnNewLines(a) + OnNewLines(b)
  {
    if a == [] {
      assert a + b == b;
    } else {
      NewLinesAppend(a[1..], b);
      assert (a + b)[0] == a[0] && (a + b)[1..] == a[1..] + b;
      Assoc([NEWLINE] + Indent(a[0].depth) + a[0].text, OnNewLines(a[1..]), OnNewLines(b));
    }
  }

  lemma OneLine(l: Line)
    ensures OnNewLines([l]) == [NEWLINE] + Indent(l.depth) + l.text
  {
    assert [l][1..] == [] && [NEWLINE] + Indent(l.depth) + l.text + [] == [NEWLINE] + Indent(l.depth) + l.text;
  }

  /** Lines that begin on a new line. */
  lemma NewLine(ls: seq<Line>)
    requires ls != []
    ensures OnNewLines(ls) == Gap(true, ls[0].depth) + Joined(ls)
  {
    hide OnNewLines;
    TabsIndent(ls[0].depth);
    assert OnNewLines(ls) == [NEWLINE] + Indent(ls[0].depth) + ls[0].text + OnNewLines(ls[1..]) by {
      Unfold(ls);
    }
    Assoc([NEWLINE] + Indent(ls[0].depth), ls[0].text, OnNewLines(ls[1..]));
  }

  lemma Unfold(ls: seq<Line>)
    requires ls != []
    ensures OnNewLines(ls) == [NEWLINE] + Indent(ls[0].depth) + ls[0].text + OnNewLines(ls[1..])
  {
  }

  lemma CommaBehind(ls: seq<Line>)
    requires ls != []
    ensures OnNewLines(WithComma(ls)) == OnNewLines(ls) + [COMMA]
  {
    hide OnNewLines;
    var n := |ls| - 1;
    var l, l' := ls[n], Line(ls[n].depth, ls[n].text + [COMMA]);
    assert ls == ls[..n] + [l];
    NewLinesAppend(ls[..n], [l]);
    NewLinesAppend(ls[..n], [l']);
    OneLine(l);
    OneLine(l');
    Assoc([NEWLINE] + Indent(l.depth), l.text, [COMMA]);
    Assoc(OnNewLines(ls[..n]), [NEWLINE] + Indent(l.depth) + l.text, [COMMA]);
  }

  lemma KeyInFront(key: bytes, ls: seq<Line>)
    requires ls != []
    ensures WithKey(key, ls) != [] && WithKey(key, ls)[0].depth == ls[0].depth
    ensures Joined(WithKey(key, ls)) == PrintKey(key, true) + Joined(ls)
  {
    hide OnNewLines;
    hide CStr;
    var head := [QUOTE] + CStr(key) + [QUOTE, COLON, SPACE];
    Assoc([QUOTE] + CStr(key), [QUOTE, COLON], [SPACE]);
    assert [QUOTE, COLON] + [SPACE] == [QUOTE, COLON, SPACE];
    assert PrintKey(key, true) == head;
    assert WithKey(key, ls)[1..] == ls[1..];
    Assoc(head, ls[0].text, OnNewLines(ls[1..]));
  }

  // ---------------------------------------------------------------- the printer's spaced form

  /** The spaced form is these lines. */
  lemma {:induction false} SpacedLines(nums: Numerals, j: Json, depth: nat)
    ensures Print(nums, j, true, depth) == Joined(Lines(nums, j, depth))
    decreases j, 1
  {
    match j
    case List(js) =>
      SpacedItems(nums, js, depth);
      Bracketed(nums, depth, OPEN_LIST, ItemLines(nums, js, depth + 1), CLOSE_LIST);
    case Object(ps) =>
      SpacedPairs(nums, ps, depth);
      Bracketed(nums, depth, OPEN_OBJECT, PairLines(nums, ps, depth + 1), CLOSE_OBJECT);
    case _ =>
      var text := Print(nums, j, false, 0);
      assert [Line(depth, text)][1..] == [] && text + [] == text;
  }

  lemma Bracketed(nums: Numerals, depth: nat, open: byte, inner: seq<Line>, close: byte)
    ensures Joined([Line(depth, [open])] + inner + [Line(depth, [close])])
         == [open] + OnNewLines(inner) + Gap(true, depth) + [close]
  {
    hide OnNewLines;
    var ls := [Line(depth, [open])] + inner + [Line(depth, [close])];
    assert ls[1..] == inner + [Line(depth, [close])];
    NewLinesAppend(inner, [Line(depth, [close])]);
    OneLine(Line(depth, [close]));
    TabsIndent(depth);
    Assoc([open], OnNewLines(inner), Gap(true, depth) + [close]);
    Assoc([open] + OnNewLines(inner), Gap(true, depth), [close]);
  }

  lemma {:induction false} SpacedItems(nums: Numerals, js: seq<Json>, depth: nat)
    ensures PrintItems(nums, js, true, depth, true) == OnNewLines(ItemLines(nums, js, depth + 1))
    ensures js != [] ==>
              PrintItems(nums, js, true, depth, false) == [COMMA] + OnNewLines(ItemLines(nums, js, depth + 1))
    decreases js, 0
  {
    hide Print;
    hide Lines;
    hide Gap;
    hide OnNewLines;
    if js == [] {
      NoLines();
    } else {
      var ls, rest := Lines(nums, js[0], depth + 1), js[1..];
      var item, tail := Gap(true, depth + 1) + Print(nums, js[0], true, depth + 1), PrintItems(nums, rest, true, depth, false);
      SpacedLines(nums, js[0], depth + 1);
      NewLine(ls);
      assert item == OnNewLines(ls);
      assert [] + Gap(true, depth + 1) == Gap(true, depth + 1);
      Assoc([COMMA], Gap(true, depth + 1), Print(nums, js[0], true, depth + 1));
      Assoc([COMMA], item, tail);
      SpacedItems(nums, rest, depth);
      if rest == [] {
        assert item + [] == item;
      } else {
        CommaBehind(ls);
        NewLinesAppend(WithComma(ls), ItemLines(nums, rest, depth + 1));
        Assoc(OnNewLines(ls), [COMMA], OnNewLines(ItemLines(nums, rest, depth + 1)));
      }
    }
  }

  lemma NoLines()
    ensures OnNewLines([]) == []
  {
  }

  lemma {:induction false} SpacedPairs(nums: Numerals, ps: seq<Pair>, depth: nat)
    ensures PrintPairs(nums, ps, true, depth, true) == OnNewLines(PairLines(nums, ps, depth + 1))
    ensures ps != [] ==>
              PrintPairs(nums, ps, true, depth, false) == [COMMA] + OnNewLines(PairLines(nums, ps, depth + 1))
    decreases ps, 0
  {
    hide Print;
    hide PrintKey;
    hide Lines;
    hide Gap;
    hide OnNewLines;
    if ps == [] {
      NoLines();
    } else {
      var val, rest := Lines(nums, ps[0].val, depth + 1), ps[1..];
      var ls, gap, key := WithKey(ps[0].key, val), Gap(true, depth + 1), PrintKey(ps[0].key, true);
      var text, tail := Print(nums, ps[0].val, true, depth + 1), PrintPairs(nums, rest, true, depth, false);
      SpacedLines(nums, ps[0].val, depth + 1);
      KeyInFront(ps[0].key, val);
      NewLine(ls);
      hide WithKey;
      hide Joined;
      Assoc(gap, key, text);
      assert gap + key + text == OnNewLines(ls);
      assert [] + gap == gap;
      Assoc([COMMA], gap, key);
      Assoc([COMMA], gap + key, text);
      Assoc([COMMA], gap + key + text, tail);
      SpacedPairs(nums, rest, depth);
      if rest == [] {
        assert gap + key + text + [] == gap + key + text;
      } else {
        CommaBehind(ls);
        hide WithComma;
        NewLinesAppend(WithComma(ls), PairLines(nums, rest, depth + 1));
        Assoc(OnNewLines(ls), [COMMA], OnNewLines(PairLines(nums, rest, depth + 1)));
      }
    }
  }
}
