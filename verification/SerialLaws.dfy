/** The laws of the value codec: round trip, soundness, truncation, canonical form, equality and the grammar. */
module SerialLaws {
  import opened Bytes
  import opened SerialType
  import opened SerialValue

  // ---------------------------------------------------------------- whole blocks: decoding undoes writing

  lemma BlockRoundTrip(b: bytes, cellSize: nat, n: nat, rest: bytes)
    requires |b| == cellSize * n && n < U32_RANGE
    ensures DecBlock(U32(n) + b + rest, cellSize) == Parsed(b, 4 + |b|)
    ensures FromU32(U32(n) + b + rest) == n
  {
    Assoc(U32(n), b, rest);
    ReadBackU32(n, b + rest);
  }

  lemma {:induction false} BlocksRoundTrip(ss: seq<bytes>, rest: bytes)
    requires forall s <- ss :: |s| < U32_RANGE
    ensures DecBlocks(|ss|, PrefixedAll(ss) + rest) == Parsed(ss, |PrefixedAll(ss)|)
    decreases ss
  {
    hide U32;
    hide FromU32;
    if ss != [] {
      var tail := PrefixedAll(ss[1..]) + rest;
      Assoc(Prefixed(ss[0]), PrefixedAll(ss[1..]), rest);
      BlockRoundTrip(ss[0], 1, |ss[0]|, tail);
      BlocksRoundTrip(ss[1..], rest);
      assert (Prefixed(ss[0]) + tail)[|Prefixed(ss[0])|..] == tail;
      assert [ss[0]] + ss[1..] == ss;
    }
  }

  lemma {:induction false} FlatRoundTrip(t: Type, v: Val, rest: bytes)
    requires Shaped(t, v)
    ensures Dec(t, Flat(v) + rest) == Parsed(v, |Flat(v)|)
    decreases v
  {
    match v
    case VNum(_) =>
    case VStr(b) => BlockRoundTrip(b, 1, |b|, rest);
    case VNumArr(b, n) => BlockRoundTrip(b, NumSize(t.cell.tid), n, rest);
    case VStrArr(ss) =>
      BlocksRoundTrip(ss, rest);
      LengthFirst(|ss|, PrefixedAll(ss), rest);
    case VArr(es) =>
      FlatAllRoundTrip(Repeat(t.cell, |es|), es, rest);
      LengthFirst(|es|, FlatAll(es), rest);
    case VStruct(es) => FlatAllRoundTrip(t.fields, es, rest);
  }

  lemma {:induction false} FlatAllRoundTrip(ts: seq<Type>, es: seq<Val>, rest: bytes)
    requires ShapedAll(ts, es)
    ensures DecAll(ts, FlatAll(es) + rest) == Parsed(es, |FlatAll(es)|)
    decreases es
  {
    if es != [] {
      var tail := FlatAll(es[1..]) + rest;
      Assoc(Flat(es[0]), FlatAll(es[1..]), rest);
      FlatRoundTrip(ts[0], es[0], tail);
      FlatAllRoundTrip(ts[1..], es[1..], rest);
      assert (Flat(es[0]) + tail)[|Flat(es[0])|..] == tail;
      assert [es[0]] + es[1..] == es;
    }
  }

  lemma LengthFirst(n: nat, body: bytes, rest: bytes)
    requires n < U32_RANGE
    ensures FromU32(U32(n) + body + rest) == n
    ensures (U32(n) + body + rest)[4..] == body + rest
  {
    Assoc(U32(n), body, rest);
    ReadBackU32(n, body + rest);
  }

  // ---------------------------------------------------------------- whatever decodes is what was written

  lemma BlockSound(s: bytes, cellSize: nat)
    requires DecBlock(s, cellSize).Parsed?
    ensures var r := DecBlock(s, cellSize);
            |r.value| == cellSize * FromU32(s) && U32(FromU32(s)) + r.value == s[..r.used]
  {
    WriteBackU32(s);
    var n := cellSize * FromU32(s);
    assert s[..4] + s[4..4 + n] == s[..4 + n];
  }

  lemma StringSound(s: bytes)
    requires DecBlock(s, 1).Parsed?
    ensures var r := DecBlock(s, 1); Prefixed(r.value) == s[..r.used] && |r.value| < U32_RANGE
  {
    hide U32;
    BlockSound(s, 1);
  }

  lemma {:induction false} BlocksSound(count: nat, s: bytes)
    requires DecBlocks(count, s).Parsed?
    ensures var r := DecBlocks(count, s);
            |r.value| == count && PrefixedAll(r.value) == s[..r.used] && forall b <- r.value :: |b| < U32_RANGE
    decreases count
  {
    hide U32;
    hide FromU32;
    hide DecBlock;
    if count > 0 {
      var b := DecBlock(s, 1);
      var tail := DecBlocks(count - 1, s[b.used..]);
      StringSound(s);
      hide Prefixed;
      BlocksSound(count - 1, s[b.used..]);
      assert s[..b.used] + s[b.used..][..tail.used] == s[..b.used + tail.used];
      PrefixedCons(b.value, tail.value);
    }
  }

  lemma PrefixedCons(b: bytes, bs: seq<bytes>)
    ensures PrefixedAll([b] + bs) == Prefixed(b) + PrefixedAll(bs)
  {
    assert ([b] + bs)[1..] == bs;
  }

  lemma {:induction false} DecSound(t: Type, s: bytes)
    requires Dec(t, s).Parsed?
    ensures var r := Dec(t, s); Shaped(t, r.value) && Flat(r.value) == s[..r.used]
    decreases |s|, t
  {
    hide U32;
    hide FromU32;
    match t
    case TNum(_) =>
    case TStr => BlockSound(s, 1);
    case TStruct(fs) => DecAllSound(fs, s);
    case TArr(c) =>
      WriteBackU32(s);
      if c.TNum? {
        BlockSound(s, NumSize(c.tid));
      } else if c.TStr? {
        BlocksSound(FromU32(s), s[4..]);
        AfterLength(s, DecBlocks(FromU32(s), s[4..]).used);
      } else {
        DecAllSound(Repeat(c, FromU32(s)), s[4..]);
        AfterLength(s, DecAll(Repeat(c, FromU32(s)), s[4..]).used);
      }
  }

  lemma AfterLength(s: bytes, n: nat)
    requires 4 + n <= |s|
    ensures s[..4] + s[4..][..n] == s[..4 + n]
  {
  }

  lemma {:induction false} DecAllSound(ts: seq<Type>, s: bytes)
    requires DecAll(ts, s).Parsed?
    ensures var r := DecAll(ts, s);
            ShapedAll(ts, r.value) && FlatAll(r.value) == s[..r.used]
    decreases |s|, ts
  {
    hide U32;
    hide Dec;
    if ts != [] {
      var h := Dec(ts[0], s);
      var tail := DecAll(ts[1..], s[h.used..]);
      DecSound(ts[0], s);
      DecAllSound(ts[1..], s[h.used..]);
      assert s[..h.used] + s[h.used..][..tail.used] == s[..h.used + tail.used];
      assert ([h.value] + tail.value)[1..] == tail.value;
    }
  }

  // ---------------------------------------------------------------- a cut message is always noticed

  lemma BlockTruncated(b: bytes, cellSize: nat, n: nat, k: nat)
    requires |b| == cellSize * n && n < U32_RANGE && k < 4 + |b|
    ensures DecBlock((U32(n) + b)[..k], cellSize) == Failed(UNEXPECTED_END)
  {
    if k >= 4 {
      CutLength(n, b, k);
    }
  }

  lemma {:induction false} BlocksTruncated(ss: seq<bytes>, k: nat)
    requires (forall s <- ss :: |s| < U32_RANGE) && k < |PrefixedAll(ss)|
    ensures DecBlocks(|ss|, PrefixedAll(ss)[..k]) == Failed(UNEXPECTED_END)
    decreases ss
  {
    var s, head := PrefixedAll(ss)[..k], Prefixed(ss[0]);
    if k < |head| {
      BlockTruncated(ss[0], 1, |ss[0]|, k);
      assert s == head[..k];
    } else {
      var tail := PrefixedAll(ss[1..])[..k - |head|];
      assert s == head + tail;
      BlockRoundTrip(ss[0], 1, |ss[0]|, tail);
      BlocksTruncated(ss[1..], k - |head|);
    }
  }

  lemma {:induction false} FlatTruncated(t: Type, v: Val, k: nat)
    requires Shaped(t, v) && k < |Flat(v)|
    ensures Dec(t, Flat(v)[..k]) == Failed(UNEXPECTED_END)
    decreases v
  {
    match v
    case VNum(_) =>
    case VStr(b) => BlockTruncated(b, 1, |b|, k);
    case VNumArr(b, n) => BlockTruncated(b, NumSize(t.cell.tid), n, k);
    case VStrArr(ss) =>
      if k >= 4 {
        BlocksTruncated(ss, k - 4);
        CutLength(|ss|, PrefixedAll(ss), k);
      }
    case VArr(es) =>
      if k >= 4 {
        FlatAllTruncated(Repeat(t.cell, |es|), es, k - 4);
        CutLength(|es|, FlatAll(es), k);
      }
    case VStruct(es) => FlatAllTruncated(t.fields, es, k);
  }

  lemma {:induction false} FlatAllTruncated(ts: seq<Type>, es: seq<Val>, k: nat)
    requires ShapedAll(ts, es) && k < |FlatAll(es)|
    ensures DecAll(ts, FlatAll(es)[..k]) == Failed(UNEXPECTED_END)
    decreases es
  {
    var s, head := FlatAll(es)[..k], Flat(es[0]);
    if k < |head| {
      FlatTruncated(ts[0], es[0], k);
      assert s == head[..k];
    } else {
      var tail := FlatAll(es[1..])[..k - |head|];
      assert s == head + tail;
      FlatRoundTrip(ts[0], es[0], tail);
      FlatAllTruncated(ts[1..], es[1..], k - |head|);
    }
  }

  lemma CutLength(n: nat, body: bytes, k: nat)
    requires n < U32_RANGE && 4 <= k <= 4 + |body|
    ensures (U32(n) + body)[..k][4..] == body[..k - 4]
    ensures FromU32((U32(n) + body)[..k]) == n
  {
    assert (U32(n) + body)[..k] == U32(n) + body[..k - 4];
    ReadBackU32(n, body[..k - 4]);
  }
}
