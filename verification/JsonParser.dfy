/**
 * The recursive-descent parser of chjson/src/parser.c over an input stream (chutil/src/stream.c), with what it
 * allocates, and `delete_json` (chjson/src/json.c).
 */
module JsonParser {
  import opened Bytes
  import opened Json
  import opened JsonOwnership
  import opened Memory

  /** An input stream on a string. */
  class InStream {
    const text: bytes
    var i: nat

    ghost predicate Valid()
      reads this
    {
      i <= |text|
    }

    ghost function Rest(): bytes
      reads this
      requires Valid()
    {
      text[i..]
    }

    constructor (text: bytes)
      ensures Valid() && Rest() == text
    {
      this.text, i := text, 0;
    }

    method Peek() returns (c: Option<byte>)
      requires Valid()
      ensures c == if Rest() == [] then None else Some(Rest()[0])
    {
      c := if i >= |text| then None else Some(text[i]);
    }

    method Next() returns (c: Option<byte>)
      requires Valid()
      modifies this
      ensures Valid() && i == if old(i) < |text| then old(i) + 1 else old(i)
      ensures old(Rest()) == [] ==> c == None && Rest() == []
      ensures old(Rest()) != [] ==> c == Some(old(Rest())[0]) && Rest() == old(Rest())[1..]
    {
      if i >= |text| {
        return None;
      }
      c := Some(text[i]);
      i := i + 1;
    }
  }

  /**
   * A method's result and the input it leaves are those of the specification; after a syntax error any input may be
   * left.
   */
  ghost predicate Agrees<T>(r: Reading<T>, v: Option<T>, rest: bytes) {
    match r
    case SyntaxError => v.None?
    case Good(x, left) => v == Some(x) && rest == left
  }

  /** What a method's result owns. */
  ghost function Given(v: Option<Json>): nat {
    if v.None? then 0 else Owned(v.value)
  }

  method ExpectCStr(input: InStream, cstr: bytes) returns (ok: Option<()>)
    requires input.Valid()
    modifies input
    ensures input.Valid() && Agrees(Expect(old(input.Rest()), cstr), ok, input.Rest())
  {
    for k := 0 to |cstr|
      invariant input.Valid() && Expect(old(input.Rest()), cstr) == Expect(input.Rest(), cstr[k..])
    {
      var c := input.Next();
      if c.None? || c.value != cstr[k] {
        return None;
      }
      assert cstr[k..][1..] == cstr[k + 1..];
    }
    return Some(());
  }

  method TrimWs(input: InStream)
    requires input.Valid()
    modifies input
    ensures input.Valid() && input.Rest() == Trim(old(input.Rest()))
  {
    while true
      invariant input.Valid() && Trim(input.Rest()) == Trim(old(input.Rest()))
      decreases |input.Rest()|
    {
      var c := input.Peek();
      if c.None? || !IsSpace(c.value) {
        return;
      }
      c := input.Next();
    }
  }

  /** The four digits after `\u`, and the bytes they stand for. */
  method UnicodeSuffix(input: InStream) returns (r: Option<bytes>)
    requires input.Valid()
    modifies input
    ensures input.Valid() && Agrees(Escape([117] + old(input.Rest())), r, input.Rest())
  {
    ghost var s := [117] + input.Rest();
    var digits: seq<nat> := [];
    for k := 0 to 4
      invariant input.Valid() && |digits| == k < |s| && input.Rest() == s[k + 1..]
      invariant forall m | 0 <= m < k :: HexDigit(s[m + 1]) == Some(digits[m])
    {
      var c := input.Next();
      if c.None? || HexDigit(c.value).None? {
        return None;
      }
      digits := digits + [HexDigit(c.value).value];
    }
    r := Some(Utf8(digits[0], digits[1], digits[2], digits[3]));
  }

  method ControlSuffix(input: InStream) returns (r: Option<bytes>)
    requires input.Valid()
    modifies input
    ensures input.Valid() && Agrees(Escape(old(input.Rest())), r, input.Rest())
  {
    ghost var s := input.Rest();
    var c := input.Next();
    if c.None? {
      return None;
    }
    if ControlOf(c.value).Some? {
      return Some([ControlOf(c.value).value]);
    }
    if c.value != 117 {
      return None;
    }
    assert [117] + input.Rest() == s;
    r := UnicodeSuffix(input);
  }

  method ParseString(input: InStream) returns (r: Option<bytes>)
    requires input.Valid()
    modifies input
    ensures input.Valid() && Agrees(Quoted(old(input.Rest())), r, input.Rest())
  {
    var c := input.Next();
    if c.None? || c.value != QUOTE {
      return None;
    }
    var builder := [];
    while true
      invariant input.Valid() && Quoted(old(input.Rest())) == Chars(input.Rest(), builder)
      decreases |input.Rest()|
    {
      c := input.Next();
      if c.None? || c.value < 0x20 {
        return None;
      }
      if c.value == QUOTE {
        return Some(builder);
      }
      if c.value == BACKSLASH {
        var suffix := ControlSuffix(input);
        if suffix.None? {
          return None;
        }
        builder := builder + suffix.value;
      } else {
        builder := builder + [c.value];
      }
    }
  }

  /** Takes characters of a number off the input, at most `max`. */
  method CollectNumber(input: InStream, max: nat) returns (buf: bytes)
    requires input.Valid()
    modifies input
    ensures input.Valid()
    ensures var n := NumberWidth(old(input.Rest()), max);
            buf == old(input.Rest())[..n] && input.Rest() == old(input.Rest())[n..]
  {
    ghost var from, s := input.i, input.Rest();
    buf := [];
    for k := 0 to max
      invariant input.Valid() && input.i == from + k && buf == input.text[from..input.i]
      invariant NumberWidth(s, max) == k + NumberWidth(input.text[input.i..], max - k)
    {
      var c := input.Peek();
      if c.None? || !NumberLike(c.value) {
        Slices(input.text, from, input.i);
        return;
      }
      assert input.text[input.i..][1..] == input.text[input.i + 1..];
      buf := buf + [c.value];
      c := input.Next();
    }
    Slices(input.text, from, input.i);
  }

  lemma Slices(s: bytes, a: nat, b: nat)
    requires a <= b <= |s|
    ensures s[a..][..b - a] == s[a..b] && s[a..][b - a..] == s[b..]
  {
  }

  /** Gives back all that `j` owns. */
  method DeleteJson(mem: Mem, j: Json)
    modifies mem`live
    ensures mem.live == old(mem.live) - Owned(j)
    decreases j, 0
  {
    match j {
      case Null =>
        return;
      case Object(ps) =>
        DeletePairs(mem, ps);
      case List(js) =>
        DeleteItems(mem, js);
      case Str(_) =>
        mem.Free(1);
      case _ =>
    }
    mem.Free(1);
  }

  method DeleteItems(mem: Mem, js: seq<Json>)
    modifies mem`live
    ensures mem.live == old(mem.live) - OwnedAll(js)
    decreases js, 1
  {
    for i := 0 to |js|
      invariant mem.live == old(mem.live) - OwnedAll(js) + OwnedAll(js[i..])
    {
      assert js[i..][1..] == js[i + 1..];
      DeleteJson(mem, js[i]);
    }
  }

  method DeletePairs(mem: Mem, ps: seq<Pair>)
    modifies mem`live
    ensures mem.live == old(mem.live) - OwnedPairs(ps)
    decreases ps, 1
  {
    for i := 0 to |ps|
      invariant mem.live == old(mem.live) - OwnedPairs(ps) + OwnedPairs(ps[i..])
    {
      assert ps[i..][1..] == ps[i + 1..];
      mem.Free(1);
      DeleteJson(mem, ps[i].val);
    }
  }

  method ParseNumber(nums: Numerals, mem: Mem, input: InStream) returns (r: Option<Json>)
    requires input.Valid()
    modifies input, mem`live
    ensures input.Valid() && Agrees(Num(nums, old(input.Rest())), r, input.Rest())
    ensures mem.live == old(mem.live) + Given(r)
  {
    var buf := CollectNumber(input, MAX_NUMBER_WIDTH);
    if buf == [] {
      return None;
    }
    var read := nums.read(buf);
    if read.None? {
      return None;
    }
    mem.Malloc(1);
    r := Some(Number(read.value));
  }

  method ParseConst(mem: Mem, input: InStream, cstr: bytes, j: Json) returns (r: Option<Json>)
    requires input.Valid() && cstr != [] && (j.Null? || j.Boolean?)
    modifies input, mem`live
    ensures input.Valid() && Agrees(Const(old(input.Rest()), cstr, j), r, input.Rest())
    ensures mem.live == old(mem.live) + Given(r)
  {
    var ok := ExpectCStr(input, cstr);
    if ok.None? {
      return None;
    }
    if j.Boolean? {
      mem.Malloc(1);
    }
    r := Some(j);
  }

  /** A string value; its builder is deleted if it fails. */
  method ParseStringValue(nums: Numerals, mem: Mem, input: InStream) returns (r: Option<Json>)
    requires input.Valid() && input.Rest() != [] && input.Rest()[0] == QUOTE
    modifies input, mem`live
    ensures input.Valid() && Agrees(Value(nums, old(input.Rest())), r, input.Rest())
    ensures mem.live == old(mem.live) + Given(r)
  {
    mem.Malloc(1);
    var text := ParseString(input);
    if text.None? {
      mem.Free(1);
      return None;
    }
    mem.Malloc(1);
    r := Some(Str(text.value));
  }

  /** The items of a list into `l`, up to its end or the first that fails. */
  method ParseItems(nums: Numerals, mem: Mem, input: InStream) returns (ok: bool, l: seq<Json>)
    requires input.Valid() && input.Rest() != [] && input.Rest()[0] == OPEN_LIST
    modifies input, mem`live
    ensures input.Valid()
    ensures Agrees(Value(nums, old(input.Rest())), if ok then Some(List(l)) else None, input.Rest())
    ensures mem.live == old(mem.live) + OwnedAll(l) + Lost(nums, old(input.Rest()))
    decreases |input.Rest()|, 0
  {
    hide Value;
    hide Items;
    hide Lost;
    hide LostInItems;
    hide Trim;
    hide Owned;
    ghost var s := input.Rest();
    ListBegins(nums, s);
    l := [];
    var c := input.Next();
    TrimWs(input);
    c := input.Peek();
    if c.None? {
      return false, l;
    }
    if c.value == CLOSE_LIST {
      c := input.Next();
      return true, l;
    }
    var item := ParseValue(nums, mem, input);
    if item.None? {
      return false, l;
    }
    l := [item.value];
    while true
      invariant input.Valid() && Value(nums, s) == Items(nums, input.Rest(), l) && |input.Rest()| < |s|
      invariant mem.live + LostInItems(nums, input.Rest()) == old(mem.live) + OwnedAll(l) + Lost(nums, s)
      decreases |input.Rest()|
    {
      ItemsGoOn(nums, input.Rest(), l);
      TrimWs(input);
      c := input.Next();
      if c.None? {
        return false, l;
      }
      if c.value == CLOSE_LIST {
        return true, l;
      }
      if c.value != COMMA {
        return false, l;
      }
      TrimWs(input);
      item := ParseValue(nums, mem, input);
      if item.None? {
        return false, l;
      }
      OwnedAllAppend(l, [item.value]);
      l := l + [item.value];
    }
  }

  method ParseList(nums: Numerals, mem: Mem, input: InStream) returns (r: Option<Json>)
    requires input.Valid() && input.Rest() != [] && input.Rest()[0] == OPEN_LIST
    modifies input, mem`live
    ensures input.Valid() && Agrees(Value(nums, old(input.Rest())), r, input.Rest())
    ensures mem.live == old(mem.live) + Given(r) + Lost(nums, old(input.Rest()))
    decreases |input.Rest()|, 1
  {
    mem.Malloc(1);
    var ok, l := ParseItems(nums, mem, input);
    if !ok {
      DeleteJson(mem, List(l));
      return None;
    }
    r := Some(List(l));
  }

  /** A key, a colon and a value; the key's builder is deleted if the pair fails. */
  method ParseKvp(nums: Numerals, mem: Mem, input: InStream) returns (r: Option<Pair>)
    requires input.Valid()
    modifies input, mem`live
    ensures input.Valid() && Agrees(Kvp(nums, old(input.Rest())), r, input.Rest())
    ensures mem.live == old(mem.live) + LostInKvp(nums, old(input.Rest())) + if r.None? then 0 else 1 + Owned(r.value.val)
    decreases |input.Rest()|, 0
  {
    mem.Malloc(1);
    var key := ParseString(input);
    if key.None? {
      mem.Free(1);
      return None;
    }
    TrimWs(input);
    var c := input.Next();
    if c.None? || c.value != COLON {
      mem.Free(1);
      return None;
    }
    TrimWs(input);
    var val := ParseValue(nums, mem, input);
    if val.None? {
      mem.Free(1);
      return None;
    }
    r := Some(Pair(key.value, val.value));
  }

  /** The pairs of an object into its map `hm`. Putting one whose key is there forgets the old value and the new key. */
  method ParsePairs(nums: Numerals, mem: Mem, input: InStream) returns (ok: bool, hm: seq<Pair>)
    requires input.Valid() && input.Rest() != [] && input.Rest()[0] == OPEN_OBJECT
    modifies input, mem`live
    ensures input.Valid()
    ensures Agrees(Value(nums, old(input.Rest())), if ok then Some(Object(hm)) else None, input.Rest())
    ensures mem.live == old(mem.live) + OwnedPairs(hm) + Lost(nums, old(input.Rest()))
    decreases |input.Rest()|, 0
  {
    hide Owned;
    hide Num;
    hide Const;
    hide Quoted;
    hide Items;
    hide LostInItems;
    ghost var s := input.Rest();
    hm := [];
    var c := input.Next();
    TrimWs(input);
    c := input.Peek();
    if c.None? {
      return false, hm;
    }
    if c.value == CLOSE_OBJECT {
      c := input.Next();
      return true, hm;
    }
    var pair := ParseKvp(nums, mem, input);
    if pair.None? {
      return false, hm;
    }
    hm := Put([], pair.value);
    while true
      invariant input.Valid() && Value(nums, s) == Pairs(nums, input.Rest(), hm) && |input.Rest()| < |s|
      invariant mem.live + LostInPairs(nums, input.Rest(), hm) == old(mem.live) + OwnedPairs(hm) + Lost(nums, s)
      decreases |input.Rest()|
    {
      TrimWs(input);
      c := input.Next();
      if c.None? {
        return false, hm;
      }
      if c.value == CLOSE_OBJECT {
        return true, hm;
      }
      if c.value != COMMA {
        return false, hm;
      }
      TrimWs(input);
      pair := ParseKvp(nums, mem, input);
      if pair.None? {
        return false, hm;
      }
      PutConserves(hm, pair.value);
      hm := Put(hm, pair.value);
    }
  }

  method ParseObject(nums: Numerals, mem: Mem, input: InStream) returns (r: Option<Json>)
    requires input.Valid() && input.Rest() != [] && input.Rest()[0] == OPEN_OBJECT
    modifies input, mem`live
    ensures input.Valid() && Agrees(Value(nums, old(input.Rest())), r, input.Rest())
    ensures mem.live == old(mem.live) + Given(r) + Lost(nums, old(input.Rest()))
    decreases |input.Rest()|, 1
  {
    mem.Malloc(1);
    var ok, hm := ParsePairs(nums, mem, input);
    if !ok {
      DeleteJson(mem, Object(hm));
      return None;
    }
    r := Some(Object(hm));
  }

  method ParseValue(nums: Numerals, mem: Mem, input: InStream) returns (r: Option<Json>)
    requires input.Valid()
    modifies input, mem`live
    ensures input.Valid() && Agrees(Value(nums, old(input.Rest())), r, input.Rest())
    ensures mem.live == old(mem.live) + Given(r) + Lost(nums, old(input.Rest()))
    decreases |input.Rest()|, 2
  {
    var c := input.Peek();
    if c.None? {
      return None;
    }
    if c.value == OPEN_OBJECT {
      r := ParseObject(nums, mem, input);
    } else if c.value == OPEN_LIST {
      r := ParseList(nums, mem, input);
    } else if c.value == QUOTE {
      r := ParseStringValue(nums, mem, input);
    } else if c.value == FALSE[0] {
      r := ParseConst(mem, input, FALSE, Boolean(false));
    } else if c.value == TRUE[0] {
      r := ParseConst(mem, input, TRUE, Boolean(true));
    } else if c.value == NULL[0] {
      r := ParseConst(mem, input, NULL, Null);
    } else {
      r := ParseNumber(nums, mem, input);
    }
  }

  method ParseDocument(nums: Numerals, mem: Mem, input: InStream) returns (r: Option<Json>)
    requires input.Valid()
    modifies input, mem`live
    ensures input.Valid() && Agrees(Document(nums, old(input.Rest())), r, input.Rest())
    ensures var text := Trim(old(input.Rest()));
            && mem.live == old(mem.live) + Given(r) + Lost(nums, text)
            && (mem.live == old(mem.live) + Given(r) <==> NoRepeats(RawValue(nums, text)))
  {
    TrimWs(input);
    Conservation(nums, input.Rest());
    r := ParseValue(nums, mem, input);
  }
}
