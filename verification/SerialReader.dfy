/**
 * The decoding routines, deletion and equality of chrpc/src/serial_value.c, proved against the codec and against the
 * number of heap blocks a value owns.
 */
module SerialReader {
  import opened Bytes
  import opened Memory
  import opened SerialType
  import opened SerialValue
  import opened SerialTheorems
  import opened SerialStrays
  import opened SerialBuffer

  const ADDRESS_SIZE: nat := 8

  // ---------------------------------------------------------------- ownership

  /** Heap blocks owned by an inner value: its own node, and whatever it points to. */
  function ValBlocks(v: Val): nat {
    match v
    case VNum(_) => 1
    case VStr(b) => 1 + Block(|b|)
    case VNumArr(b, _) => 1 + Block(|b|)
    case VStrArr(ss) => 1 + Block(|ss|) + StrBlocks(ss)
    case VArr(es) => 1 + Block(|es|) + AllBlocks(es)
    case VStruct(es) => 1 + Block(|es|) + AllBlocks(es)
  }

  function AllBlocks(es: seq<Val>): nat {
    if es == [] then 0 else ValBlocks(es[0]) + AllBlocks(es[1..])
  }

  function StrBlocks(ss: seq<bytes>): nat {
    if ss == [] then 0 else Block(|ss[0]|) + StrBlocks(ss[1..])
  }

  function ValueBlocks(v: Value): nat {
    TypeBlocks(v.ty) + ValBlocks(v.val) + 1
  }

  lemma {:induction false} AllBlocksAppend(a: seq<Val>, b: seq<Val>)
    ensures AllBlocks(a + b) == AllBlocks(a) + AllBlocks(b)
  {
    hide ValBlocks;
    if a == [] {
      assert a + b == b;
    } else {
      assert (a + b)[0] == a[0] && (a + b)[1..] == a[1..] + b;
      AllBlocksAppend(a[1..], b);
    }
  }

  lemma {:induction false} StrBlocksAppend(a: seq<bytes>, b: seq<bytes>)
    ensures StrBlocks(a + b) == StrBlocks(a) + StrBlocks(b)
  {
    if a == [] {
      assert a + b == b;
    } else {
      assert (a + b)[0] == a[0] && (a + b)[1..] == a[1..] + b;
      StrBlocksAppend(a[1..], b);
    }
  }

  /** `strlen` runs over every string that is not in an array of strings before its block is freed. */
  method DeleteInner(mem: Mem, v: Val)
    modifies mem
    ensures mem.strays == old(mem.strays) + Strays(Scanned(v))
    ensures Inside(Scanned(v)) ==> mem.live == old(mem.live) - ValBlocks(v)
    decreases v
  {
    match v {
      case VNum(_) =>
      case VStr(b) =>
        assert b in [b] && [b][1..] == [];
        mem.StrLen(b);
        mem.Free(|b|);
      case VNumArr(b, _) => mem.Free(|b|);
      case VStrArr(ss) =>
        DeleteStrs(mem, ss);
        mem.Free(ADDRESS_SIZE * |ss|);
      case VArr(es) =>
        DeleteEntries(mem, es);
        mem.Free(ADDRESS_SIZE * |es|);
      case VStruct(es) =>
        DeleteEntries(mem, es);
        mem.Free(ADDRESS_SIZE * |es|);
    }
    mem.Free(NODE_SIZE);
  }

  lemma ScannedAllStep(es: seq<Val>, i: nat)
    requires i < |es|
    ensures ScannedAll(es[..i + 1]) == ScannedAll(es[..i]) + Scanned(es[i])
    ensures Strays(ScannedAll(es[..i + 1])) == Strays(ScannedAll(es[..i])) + Strays(Scanned(es[i]))
    ensures AllBlocks(es[..i + 1]) == AllBlocks(es[..i]) + ValBlocks(es[i])
  {
    hide Scanned;
    hide ValBlocks;
    assert es[..i + 1] == es[..i] + [es[i]];
    AllBlocksAppend(es[..i], [es[i]]);
    ScannedAllMore(es[..i], es[i]);
    StraysAppend(ScannedAll(es[..i]), Scanned(es[i]));
  }

  method DeleteEntries(mem: Mem, es: seq<Val>)
    modifies mem
    ensures mem.strays == old(mem.strays) + Strays(ScannedAll(es))
    ensures Inside(ScannedAll(es)) ==> mem.live == old(mem.live) - AllBlocks(es)
    decreases es
  {
    hide ValBlocks;
    hide Scanned;
    for i := 0 to |es|
      invariant mem.strays == old(mem.strays) + Strays(ScannedAll(es[..i]))
      invariant Inside(ScannedAll(es[..i])) ==> mem.live == old(mem.live) - AllBlocks(es[..i])
    {
      ScannedAllStep(es, i);
      DeleteInner(mem, es[i]);
    }
    assert es[..|es|] == es;
  }

  method DeleteStrs(mem: Mem, ss: seq<bytes>)
    modifies mem`live
    ensures mem.live == old(mem.live) - StrBlocks(ss)
  {
    for i := 0 to |ss|
      invariant mem.live == old(mem.live) - StrBlocks(ss[..i])
    {
      assert ss[..i + 1] == ss[..i] + [ss[i]];
      StrBlocksAppend(ss[..i], [ss[i]]);
      mem.Free(|ss[i]|);
    }
    assert ss[..|ss|] == ss;
  }

  /** Deleting a value gives back every block it owns. */
  method DeleteValue(mem: Mem, v: Value)
    modifies mem
    ensures mem.strays == old(mem.strays) + Strays(Scanned(v.val))
    ensures Inside(Scanned(v.val)) ==> mem.live == old(mem.live) - ValueBlocks(v)
  {
    DeleteInner(mem, v.val);
    DeleteType(mem, v.ty);
    mem.Free(NODE_SIZE);
  }

  // ---------------------------------------------------------------- decoding

  method BlockFromBuffer(mem: Mem, cellSize: nat, buf: bytes) returns (r: Parsed<bytes>)
    modifies mem`live
    ensures r == DecBlock(buf, cellSize)
    ensures mem.live == old(mem.live) + (if r.Parsed? then Block(|r.value|) else 0)
  {
    if |buf| < 4 {
      return Failed(UNEXPECTED_END);
    }
    var arrBytes := cellSize * FromU32(buf);
    if |buf| - 4 < arrBytes {
      return Failed(UNEXPECTED_END);
    }
    mem.Malloc(arrBytes);
    return Parsed(buf[4..4 + arrBytes], 4 + arrBytes);
  }

  /**
   * Reads a value of type `ct` from the front of `buf`. What was built before a failure is deleted again, so if that
   * stays inside its blocks a failed read leaves the number of live blocks as it was. A successful read adds exactly
   * the blocks the value owns.
   */
  method InnerFromBuffer(mem: Mem, ct: Type, buf: bytes) returns (r: Parsed<Val>)
    requires WellFormed(ct)
    modifies mem
    ensures r == Dec(ct, buf)
    ensures mem.strays == old(mem.strays) + Strays(Undone(ct, buf))
    ensures Inside(Undone(ct, buf)) ==>
              mem.live == old(mem.live) + (if r.Parsed? then ValBlocks(r.value) else 0)
    decreases |buf|, ct, 1
  {
    hide FromU32;
    hide DecBlock;
    hide DecBlocks;
    hide DecAll;
    hide AllUndone;
    hide AllBlocks;
    hide StrBlocks;
    match ct
    case TNum(tid) =>
      mem.Malloc(NODE_SIZE);
      if |buf| < NumSize(tid) {
        mem.Free(NODE_SIZE);
        return Failed(UNEXPECTED_END);
      }
      return Parsed(VNum(buf[..NumSize(tid)]), NumSize(tid));
    case TStr =>
      var b := BlockFromBuffer(mem, 1, buf);
      if b.Failed? {
        return Failed(b.status);
      }
      mem.Malloc(NODE_SIZE);
      return Parsed(VStr(b.value), b.used);
    case TStruct(fields) =>
      var es := EntriesFromBuffer(mem, fields, buf);
      if es.Failed? {
        return Failed(es.status);
      }
      mem.Malloc(NODE_SIZE);
      return Parsed(VStruct(es.value), es.used);
    case TArr(cell) =>
      if cell.TNum? {
        var b := BlockFromBuffer(mem, NumSize(cell.tid), buf);
        if b.Failed? {
          return Failed(b.status);
        }
        mem.Malloc(NODE_SIZE);
        return Parsed(VNumArr(b.value, FromU32(buf)), b.used);
      }
      if |buf| < 4 {
        return Failed(UNEXPECTED_END);
      }
      if cell.TStr? {
        var ss := StrsFromBuffer(mem, FromU32(buf), buf[4..]);
        if ss.Failed? {
          return Failed(ss.status);
        }
        mem.Malloc(NODE_SIZE);
        return Parsed(VStrArr(ss.value), 4 + ss.used);
      }
      var es := EntriesFromBuffer(mem, Repeat(cell, FromU32(buf)), buf[4..]);
      if es.Failed? {
        return Failed(es.status);
      }
      mem.Malloc(NODE_SIZE);
      return Parsed(VArr(es.value), 4 + es.used);
  }

  /** One more round of the loop below, seen from the specification. */
  lemma DecAllStep(ts: seq<Type>, i: nat, s: bytes, done: seq<Val>, used: nat)
    requires i < |ts| && used <= |s|
    ensures var r := Dec(ts[i], s[used..]);
            Prepend(done, used, DecAll(ts[i..], s[used..]))
            == if r.Failed? then Failed(r.status)
               else Prepend(done + [r.value], used + r.used, DecAll(ts[i + 1..], s[used + r.used..]))
  {
    hide Dec;
    var r := Dec(ts[i], s[used..]);
    assert ts[i..][1..] == ts[i + 1..];
    if r.Parsed? {
      assert s[used..][r.used..] == s[used + r.used..];
      PrependMore(done, used, r.value, r.used, DecAll(ts[i + 1..], s[used + r.used..]));
    }
  }

  /** What is still to be undone: the values `done` if one of `ts` fails, and what that one undoes itself. */
  function StillUndone(done: seq<Val>, ts: seq<Type>, s: bytes): seq<bytes> {
    (if DecAll(ts, s).Failed? then ScannedAll(done) else []) + AllUndone(ts, s)
  }

  /** The first of the types still to be read. */
  lemma FirstUndone(ts: seq<Type>, i: nat, s: bytes, used: nat)
    requires i < |ts| && used <= |s|
    ensures var r := Dec(ts[i], s[used..]);
            var all := AllUndone(ts[i..], s[used..]);
            if r.Failed? then DecAll(ts[i..], s[used..]).Failed? && all == Undone(ts[i], s[used..])
            else
              var left := DecAll(ts[i + 1..], s[used + r.used..]);
              && DecAll(ts[i..], s[used..]).Failed? == left.Failed?
              && all == (if left.Failed? then Scanned(r.value) else []) + AllUndone(ts[i + 1..], s[used + r.used..])
  {
    hide Dec;
    hide Undone;
    hide Scanned;
    assert ts[i..][0] == ts[i] && ts[i..][1..] == ts[i + 1..];
    if Dec(ts[i], s[used..]).Parsed? {
      assert s[used..][Dec(ts[i], s[used..]).used..] == s[used + Dec(ts[i], s[used..]).used..];
    }
  }

  lemma StillUndoneStep(ts: seq<Type>, i: nat, s: bytes, done: seq<Val>, used: nat)
    requires i < |ts| && used <= |s|
    ensures var r := Dec(ts[i], s[used..]);
            var was := StillUndone(done, ts[i..], s[used..]);
            if r.Failed? then was == ScannedAll(done) + Undone(ts[i], s[used..])
            else was == StillUndone(done + [r.value], ts[i + 1..], s[used + r.used..])
  {
    FirstUndone(ts, i, s, used);
    hide Dec;
    hide DecAll;
    hide Undone;
    hide AllUndone;
    hide Scanned;
    var r := Dec(ts[i], s[used..]);
    if r.Parsed? {
      ScannedAllMore(done, r.value);
      hide ScannedAll;
      var left := s[used + r.used..];
      Regather(DecAll(ts[i + 1..], left).Failed?, ScannedAll(done), Scanned(r.value), AllUndone(ts[i + 1..], left));
    }
  }

  lemma ScannedAllMore(es: seq<Val>, v: Val)
    ensures ScannedAll(es + [v]) == ScannedAll(es) + Scanned(v)
  {
    hide Scanned;
    ScannedAllAppend(es, [v]);
    assert [v][1..] == [] && ScannedAll([v]) == Scanned(v) + [];
  }

  lemma Regather(fails: bool, a: seq<bytes>, b: seq<bytes>, c: seq<bytes>)
    ensures (if fails then a else []) + ((if fails then b else []) + c) == (if fails then a + b else []) + c
  {
    Assoc(a, b, c);
  }

  lemma InsideParts(a: seq<bytes>, b: seq<bytes>)
    ensures Inside(a + b) <==> Inside(a) && Inside(b)
    ensures Strays(a + b) == Strays(a) + Strays(b)
  {
    StraysAppend(a, b);
    assert Inside(a + b) ==> (forall x <- a :: x in a + b) && forall x <- b :: x in a + b;
  }

  /** The loop over the fields of a struct, and over the cells of an array of composites. */
  method EntriesFromBuffer(mem: Mem, ts: seq<Type>, buf: bytes) returns (r: Parsed<seq<Val>>)
    requires forall t <- ts :: WellFormed(t)
    modifies mem
    ensures r == DecAll(ts, buf)
    ensures r.Parsed? ==> |r.value| == |ts|
    ensures mem.strays == old(mem.strays) + Strays(AllUndone(ts, buf))
    ensures Inside(AllUndone(ts, buf)) ==>
              mem.live == old(mem.live) + (if r.Parsed? then Block(|ts|) + AllBlocks(r.value) else 0)
    decreases |buf|, ts, 0
  {
    hide Dec;
    hide Undone;
    hide ValBlocks;
    hide AllUndone;
    hide StillUndone;
    var entries: seq<Val>, used: nat := [], 0;
    mem.Malloc(ADDRESS_SIZE * |ts|);
    PrependEnds([], 0, DecAll(ts, buf));
    assert buf[0..] == buf && ts[0..] == ts;
    NothingUndone(ts, buf);
    for i := 0 to |ts|
      invariant |entries| == i && used <= |buf|
      invariant DecAll(ts, buf) == Prepend(entries, used, DecAll(ts[i..], buf[used..]))
      invariant AllUndone(ts, buf) == StillUndone(entries, ts[i..], buf[used..])
      invariant mem.strays == old(mem.strays)
      invariant mem.live == old(mem.live) + Block(|ts|) + AllBlocks(entries)
    {
      var e := InnerFromBuffer(mem, ts[i], buf[used..]);
      DecAllStep(ts, i, buf, entries, used);
      StillUndoneStep(ts, i, buf, entries, used);
      if e.Failed? {
        InsideParts(ScannedAll(entries), Undone(ts[i], buf[used..]));
        DeleteEntries(mem, entries);
        mem.Free(ADDRESS_SIZE * |ts|);
        return Failed(e.status);
      }
      AllBlocksAppend(entries, [e.value]);
      entries, used := entries + [e.value], used + e.used;
    }
    PrependEnds(entries, used, DecAll([], buf[used..]));
    return Parsed(entries, used);
  }

  lemma NothingUndone(ts: seq<Type>, s: bytes)
    ensures AllUndone(ts, s) == StillUndone([], ts, s)
  {
    assert [] + AllUndone(ts, s) == AllUndone(ts, s);
  }

  lemma DecBlocksStep(left: nat, s: bytes, done: seq<bytes>, used: nat)
    requires left > 0 && used <= |s|
    ensures var r := DecBlock(s[used..], 1);
            Prepend(done, used, DecBlocks(left, s[used..]))
            == if r.Failed? then Failed(r.status)
               else Prepend(done + [r.value], used + r.used, DecBlocks(left - 1, s[used + r.used..]))
  {
    hide DecBlock;
    var r := DecBlock(s[used..], 1);
    if r.Parsed? {
      assert s[used..][r.used..] == s[used + r.used..];
      PrependMore(done, used, r.value, r.used, DecBlocks(left - 1, s[used + r.used..]));
    }
  }

  method StrsFromBuffer(mem: Mem, count: nat, buf: bytes) returns (r: Parsed<seq<bytes>>)
    modifies mem`live
    ensures r == DecBlocks(count, buf)
    ensures r.Parsed? ==> |r.value| == count
    ensures mem.live == old(mem.live) + (if r.Parsed? then Block(count) + StrBlocks(r.value) else 0)
  {
    hide DecBlock;
    var strs: seq<bytes>, used: nat := [], 0;
    mem.Malloc(ADDRESS_SIZE * count);
    PrependEnds([], 0, DecBlocks(count, buf));
    assert buf[0..] == buf;
    for i := 0 to count
      invariant |strs| == i && used <= |buf|
      invariant DecBlocks(count, buf) == Prepend(strs, used, DecBlocks(count - i, buf[used..]))
      invariant mem.live == old(mem.live) + Block(count) + StrBlocks(strs)
    {
      var b := BlockFromBuffer(mem, 1, buf[used..]);
      DecBlocksStep(count - i, buf, strs, used);
      if b.Failed? {
        DeleteStrs(mem, strs);
        mem.Free(ADDRESS_SIZE * count);
        return Failed(b.status);
      }
      StrBlocksAppend(strs, [b.value]);
      strs, used := strs + [b.value], used + b.used;
    }
    PrependEnds(strs, used, DecBlocks(0, buf[used..]));
    return Parsed(strs, used);
  }

  /** Reads a type and a value of that type. A failed read leaves nothing behind. */
  method ValueFromBuffer(mem: Mem, buf: bytes) returns (r: Parsed<Value>)
    modifies mem
    ensures r == DecValue(buf)
    ensures mem.strays == old(mem.strays) + Strays(ValueUndone(buf))
    ensures Inside(ValueUndone(buf)) ==>
              mem.live == old(mem.live) + (if r.Parsed? then ValueBlocks(r.value) else 0)
  {
    hide Undone;
    var t := TypeFromBuffer(mem, buf);
    if t.Failed? {
      return Failed(t.status);
    }
    DecTypeSound(buf);
    var v := InnerFromBuffer(mem, t.value, buf[t.used..]);
    if v.Failed? {
      DeleteType(mem, t.value);
      return Failed(v.status);
    }
    mem.Malloc(NODE_SIZE);
    return Parsed(Value(t.value, v.value), t.used + v.used);
  }

  /**
   * Reading a value and deleting it again stays inside its blocks exactly when every string that is looked through on
   * the way has a NUL, and then leaves the number of live blocks as it was.
   */
  method ReadAndDelete(mem: Mem, buf: bytes)
    modifies mem
    ensures mem.strays == old(mem.strays) <==> Inside(ScannedIn(buf))
    ensures Inside(ScannedIn(buf)) ==> mem.live == old(mem.live)
  {
    hide DecValue;
    NoStrays(ScannedIn(buf));
    var r := ValueFromBuffer(mem, buf);
    if r.Parsed? {
      DeleteValue(mem, r.value);
    }
  }

  // ---------------------------------------------------------------- equality

  method BlocksEqual(a: bytes, b: bytes, n: nat) returns (same: bool)
    requires n <= |a| && n <= |b|
    ensures same <==> a[..n] == b[..n]
  {
    for i := 0 to n
      invariant a[..i] == b[..i]
    {
      if a[i] != b[i] {
        assert a[..n][i] != b[..n][i];
        return false;
      }
    }
    return true;
  }

  /** Strings are compared as C strings, dense arrays by `memcmp`, the rest entry by entry. */
  method InnerEquals(ct: Type, v0: Val, v1: Val) returns (same: bool)
    requires Shaped(ct, v0) && Readable(v0) && Shaped(ct, v1) && Readable(v1)
    ensures same <==> Cut(v0) == Cut(v1)
    decreases v0
  {
    hide UpToNul;
    hide AllUpToNul;
    hide CutAll;
    match v0
    case VNum(raw) =>
      same := BlocksEqual(raw, v1.raw, |raw|);
      assert raw[..|raw|] == raw && v1.raw[..|raw|] == v1.raw;
    case VStr(b) => same := CStringsEqual(b, v1.block);
    case VNumArr(b, n) =>
      if n != v1.len {
        return false;
      }
      same := BlocksEqual(b, v1.block, |b|);
      assert b[..|b|] == b && v1.block[..|b|] == v1.block;
    case VStruct(es) => same := EntriesEqual(ct.fields, es, v1.entries);
    case VStrArr(ss) =>
      AllUpToNulLaws(ss);
      AllUpToNulLaws(v1.strs);
      if |ss| != |v1.strs| {
        return false;
      }
      same := StrsEqual(ss, v1.strs);
    case VArr(es) =>
      CutAllShaped(Repeat(ct.cell, |es|), es);
      CutAllShaped(Repeat(ct.cell, |v1.entries|), v1.entries);
      if |es| != |v1.entries| {
        return false;
      }
      same := EntriesEqual(Repeat(ct.cell, |es|), es, v1.entries);
  }

  method StrsEqual(ss0: seq<bytes>, ss1: seq<bytes>) returns (same: bool)
    requires |ss0| == |ss1| && (forall s <- ss0 :: 0 in s) && forall s <- ss1 :: 0 in s
    ensures same <==> AllUpToNul(ss0) == AllUpToNul(ss1)
  {
    hide AllUpToNul;
    hide UpToNul;
    AllUpToNulLaws(ss0);
    AllUpToNulLaws(ss1);
    for i := 0 to |ss0|
      invariant forall j :: 0 <= j < i ==> AllUpToNul(ss0)[j] == AllUpToNul(ss1)[j]
    {
      var eq := CStringsEqual(ss0[i], ss1[i]);
      if !eq {
        return false;
      }
    }
    same := true;
  }

  method CStringsEqual(a: bytes, b: bytes) returns (same: bool)
    requires 0 in a && 0 in b
    ensures same <==> UpToNul(a) == UpToNul(b)
  {
    var n := StrSize(a);
    var m := StrSize(b);
    if n != m {
      return false;
    }
    same := BlocksEqual(a, b, n);
  }

  lemma {:induction false} CutAllAt(es: seq<Val>, i: nat)
    requires i < |es|
    ensures |CutAll(es)| == |es| && CutAll(es)[i] == Cut(es[i])
  {
    if i > 0 {
      CutAllAt(es[1..], i - 1);
    } else if |es| > 1 {
      CutAllAt(es[1..], 0);
    }
  }

  /** One pair of entries, as the loop below needs it. */
  lemma EntryPair(ts: seq<Type>, es0: seq<Val>, es1: seq<Val>, i: nat)
    requires ShapedAll(ts, es0) && ReadableAll(es0) && ShapedAll(ts, es1) && ReadableAll(es1) && i < |es0|
    ensures i < |ts| == |es0| == |es1| == |CutAll(es0)| == |CutAll(es1)|
    ensures Shaped(ts[i], es0[i]) && Readable(es0[i]) && Shaped(ts[i], es1[i]) && Readable(es1[i])
    ensures CutAll(es0)[i] == Cut(es0[i]) && CutAll(es1)[i] == Cut(es1[i])
  {
    hide Shaped;
    hide Readable;
    hide CutAll;
    EntryAt(ts, es0, i);
    EntryAt(ts, es1, i);
    CutAllAt(es0, i);
    CutAllAt(es1, i);
  }

  method EntriesEqual(ts: seq<Type>, es0: seq<Val>, es1: seq<Val>) returns (same: bool)
    requires ShapedAll(ts, es0) && ReadableAll(es0) && ShapedAll(ts, es1) && ReadableAll(es1)
    ensures same <==> CutAll(es0) == CutAll(es1)
    decreases es0
  {
    CutAllShaped(ts, es0);
    CutAllShaped(ts, es1);
    assert |es0| == |es1|;
    hide Shaped;
    hide ShapedAll;
    hide Readable;
    hide ReadableAll;
    hide Cut;
    hide CutAll;
    for i := 0 to |es0|
      invariant forall j :: 0 <= j < i ==> CutAll(es0)[j] == CutAll(es1)[j]
    {
      EntryPair(ts, es0, es1, i);
      var eq := InnerEquals(ts[i], es0[i], es1[i]);
      if !eq {
        return false;
      }
    }
    same := true;
  }

  /** True exactly when the two values have the same bytes on the wire; NULL, which has none, equals only itself. */
  method ValueEquals(a: Option<Value>, b: Option<Value>) returns (same: bool)
    requires (a.Some? ==> Valid(a.value)) && (b.Some? ==> Valid(b.value))
    ensures same <==> OptionalBytes(a) == OptionalBytes(b)
  {
    hide EncType;
    hide Enc;
    if a.None? && b.None? {
      return true;
    }
    if a.None? || b.None? {
      EncTypeNonEmpty(if a.None? then b.value.ty else a.value.ty);
      return false;
    }
    EncodingPrefixFree(a.value, b.value);
    same := TypeEquals(a.value.ty, b.value.ty);
    if same {
      same := InnerEquals(a.value.ty, a.value.val, b.value.val);
    }
  }
}
