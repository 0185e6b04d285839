/**
 * Where the code runs `strlen` over strings it has not checked (chrpc/src/serial_value.c). The decoder copies a string
 * without looking for a NUL; deleting a value looks for it again before it frees the block, though not in an array of
 * strings.
 */
module SerialStrays {
  import opened Bytes
  import opened Memory
  import opened SerialType
  import opened SerialValue
  import opened SerialLaws
  import opened SerialTheorems

  /** The blocks `strlen` runs over when `v` is deleted. */
  function Scanned(v: Val): seq<bytes> {
    match v
    case VStr(b) => [b]
    case VArr(es) => ScannedAll(es)
    case VStruct(es) => ScannedAll(es)
    case _ => []
  }

  function ScannedAll(es: seq<Val>): seq<bytes> {
    if es == [] then [] else Scanned(es[0]) + ScannedAll(es[1..])
  }

  /** The string blocks that a failing decode has built and deletes again; a successful one deletes none. */
  function Undone(t: Type, s: bytes): (bs: seq<bytes>)
    ensures Dec(t, s).Parsed? ==> bs == []
    decreases |s|, t
  {
    match t
    case TStruct(fs) => AllUndone(fs, s)
    case TArr(c) =>
      if |s| < 4 || c.TNum? || c.TStr? then [] else AllUndone(Repeat(c, FromU32(s)), s[4..])
    case _ => []
  }

  /** When a later one of `ts` fails, the values before it are deleted. */
  function AllUndone(ts: seq<Type>, s: bytes): (bs: seq<bytes>)
    ensures DecAll(ts, s).Parsed? ==> bs == []
    decreases |s|, ts
  {
    if ts == [] then []
    else
      match Dec(ts[0], s)
      case Failed(_) => Undone(ts[0], s)
      case Parsed(v, n) =>
        (if DecAll(ts[1..], s[n..]).Failed? then Scanned(v) else []) + AllUndone(ts[1..], s[n..])
  }

  function ValueUndone(s: bytes): (bs: seq<bytes>)
    ensures DecValue(s).Parsed? ==> bs == []
  {
    match DecType(s)
    case Failed(_) => []
    case Parsed(t, n) => Undone(t, s[n..])
  }

  /** The blocks `strlen` runs over when `s` is decoded and what comes of it deleted. */
  function ScannedIn(s: bytes): seq<bytes> {
    match DecValue(s)
    case Failed(_) => ValueUndone(s)
    case Parsed(v, _) => Scanned(v.val)
  }

  lemma {:induction false} ScannedAllAppend(a: seq<Val>, b: seq<Val>)
    ensures ScannedAll(a + b) == ScannedAll(a) + ScannedAll(b)
  {
    hide Scanned;
    if a == [] {
      assert a + b == b;
    } else {
      assert (a + b)[0] == a[0] && (a + b)[1..] == a[1..] + b;
      ScannedAllAppend(a[1..], b);
      Assoc(Scanned(a[0]), ScannedAll(a[1..]), ScannedAll(b));
    }
  }

  // ---------------------------------------------------------------- inputs that cannot stray

  lemma {:induction false} ReadableScanned(v: Val)
    requires Readable(v)
    ensures Inside(Scanned(v))
    decreases v
  {
    match v
    case VArr(es) => ReadableAllScanned(es);
    case VStruct(es) => ReadableAllScanned(es);
    case _ =>
  }

  lemma {:induction false} ReadableAllScanned(es: seq<Val>)
    requires ReadableAll(es)
    ensures Inside(ScannedAll(es))
    decreases es
  {
    if es != [] {
      ReadableScanned(es[0]);
      ReadableAllScanned(es[1..]);
    }
  }

  lemma {:induction false} CutReadable(v: Val)
    requires Readable(v)
    ensures Readable(Cut(v))
    decreases v
  {
    match v
    case VStr(b) => UpToNulLaws(b);
    case VStrArr(ss) =>
      AllUpToNulLaws(ss);
      forall c | c in AllUpToNul(ss)
        ensures 0 in c
      {
        var i :| 0 <= i < |ss| && AllUpToNul(ss)[i] == c;
        UpToNulLaws(ss[i]);
      }
    case VArr(es) => CutAllReadable(es);
    case VStruct(es) => CutAllReadable(es);
    case _ =>
  }

  lemma {:induction false} CutAllReadable(es: seq<Val>)
    requires ReadableAll(es)
    ensures ReadableAll(CutAll(es))
    decreases es
  {
    if es != [] {
      CutReadable(es[0]);
      CutAllReadable(es[1..]);
      assert CutAll(es)[1..] == CutAll(es[1..]);
    }
  }

  /** Nothing that the encoder wrote strays, whatever follows it. */
  lemma EncodedInside(v: Value, rest: bytes)
    requires Valid(v)
    ensures Inside(ScannedIn(EncValue(v) + rest))
  {
    hide EncValue;
    hide DecValue;
    ValueRoundTrip(v, rest);
    CutReadable(v.val);
    ReadableScanned(Cut(v.val));
  }

  lemma {:induction false} FlatCutInside(t: Type, v: Val, k: nat)
    requires Shaped(t, v) && Readable(v) && k < |Flat(v)|
    ensures Inside(Undone(t, Flat(v)[..k]))
    decreases v
  {
    hide U32;
    match v
    case VArr(es) =>
      if k >= 4 {
        FlatAllCutInside(Repeat(t.cell, |es|), es, k - 4);
        CutLength(|es|, FlatAll(es), k);
      }
    case VStruct(es) => FlatAllCutInside(t.fields, es, k);
    case _ =>
  }

  lemma {:induction false} FlatAllCutInside(ts: seq<Type>, es: seq<Val>, k: nat)
    requires ShapedAll(ts, es) && ReadableAll(es) && k < |FlatAll(es)|
    ensures Inside(AllUndone(ts, FlatAll(es)[..k]))
    decreases es
  {
    hide Flat;
    hide Dec;
    var s, head := FlatAll(es)[..k], Flat(es[0]);
    if k < |head| {
      FlatTruncated(ts[0], es[0], k);
      FlatCutInside(ts[0], es[0], k);
      assert s == head[..k];
    } else {
      var tail := FlatAll(es[1..])[..k - |head|];
      assert s == head + tail;
      FlatRoundTrip(ts[0], es[0], tail);
      assert s[|head|..] == tail;
      ReadableScanned(es[0]);
      FlatAllCutInside(ts[1..], es[1..], k - |head|);
    }
  }

  /** Nor does an encoding that is cut short anywhere. */
  lemma CutInside(v: Value, k: nat)
    requires Valid(v) && k < |EncValue(v)|
    ensures Inside(ScannedIn(EncValue(v)[..k]))
  {
    hide EncType;
    hide Enc;
    EncodingTruncated(v, k);
    hide Dec;
    var s, head := EncValue(v)[..k], EncType(v.ty);
    if k < |head| {
      TypeTruncated(v.ty, k);
      assert s == head[..k];
    } else {
      var tail := Enc(v.val)[..k - |head|];
      assert s == head + tail;
      TypeRoundTrip(v.ty, tail);
      assert s[|head|..] == tail;
      CutShaped(v.ty, v.val);
      CutReadable(v.val);
      EncIsFlat(v.val);
      FlatCutInside(v.ty, Cut(v.val), k - |head|);
    }
  }

  lemma EncIsFlat(v: Val)
    ensures Enc(v) == Flat(Cut(v))
  {
  }

  lemma {:induction false} StringFreeUndone(t: Type, s: bytes)
    requires StringFree(t)
    ensures Undone(t, s) == [] && (Dec(t, s).Parsed? ==> Scanned(Dec(t, s).value) == [])
    decreases |s|, t
  {
    match t
    case TStruct(fs) => StringFreeAllUndone(fs, s);
    case TArr(c) =>
      if |s| >= 4 && !c.TNum? {
        StringFreeAllUndone(Repeat(c, FromU32(s)), s[4..]);
      }
    case _ =>
  }

  lemma {:induction false} StringFreeAllUndone(ts: seq<Type>, s: bytes)
    requires forall t <- ts :: StringFree(t)
    ensures AllUndone(ts, s) == [] && (DecAll(ts, s).Parsed? ==> ScannedAll(DecAll(ts, s).value) == [])
    decreases |s|, ts
  {
    hide Dec;
    hide Scanned;
    if ts != [] {
      StringFreeUndone(ts[0], s);
      if Dec(ts[0], s).Parsed? {
        var r := DecAll(ts[1..], s[Dec(ts[0], s).used..]);
        StringFreeAllUndone(ts[1..], s[Dec(ts[0], s).used..]);
        if r.Parsed? {
          assert ([Dec(ts[0], s).value] + r.value)[1..] == r.value;
        }
      }
    }
  }

  /** Without strings in its type no input strays, whether it decodes or not. */
  lemma StringFreeInside(s: bytes)
    requires DecType(s).Parsed? ==> StringFree(DecType(s).value)
    ensures ScannedIn(s) == []
  {
    hide Dec;
    if DecType(s).Parsed? {
      StringFreeUndone(DecType(s).value, s[DecType(s).used..]);
    }
  }

  // ---------------------------------------------------------------- inputs that do

  /** A failing decode: a string of no bytes, and the number behind it missing. */
  lemma FailureCanStray()
    ensures var s := [STRUCT_TID, 2, STRING_TID, 1, 0, 0, 0, 0];
            DecValue(s) == Failed(UNEXPECTED_END) && ScannedIn(s) == [[]] && !Inside(ScannedIn(s))
  {
    var s := [STRUCT_TID, 2, STRING_TID, 1, 0, 0, 0, 0];
    var ts: seq<Type>, b: bytes := [TStr, TNum(1)], [0, 0, 0, 0];
    TwoTypes();
    assert s == EncType(TStruct(ts)) + b;
    TypeRoundTrip(TStruct(ts), b);
    hide DecType;
    assert s[4..] == b && FromU32(b) == 0 && b[4..4] == [] && b[4..] == [];
    assert Dec(TStr, b) == Parsed(VStr([]), 4);
    assert ts[1..] == [TNum(1)] && DecAll(ts[1..], b[4..]) == Failed(UNEXPECTED_END);
    assert AllUndone(ts[1..], b[4..]) == [];
    var empty: bytes := [];
    assert AllUndone(ts, b) == [empty] + [] == [empty] && empty in [empty];
  }

  lemma TwoTypes()
    ensures EncType(TStruct([TStr, TNum(1)])) == [STRUCT_TID, 2, STRING_TID, 1]
  {
    var ts: seq<Type> := [TStr, TNum(1)];
    assert ts[1..] == [TNum(1)] && ts[1..][1..] == [];
    assert EncTypes(ts[1..]) == [1] && EncTypes(ts) == [STRING_TID, 1];
  }
}
